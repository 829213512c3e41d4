/** The three string operations the chatbot's matcher relies on, as Python
    defines them: `str.lower()`, `str.strip()` with no argument, and the
    substring test `k in t`. */
module Text {

  /** The characters Python's `str.isspace()` accepts; `str.strip()` with no
      argument removes exactly these from both ends. */
  predicate IsSpace(c: char) {
    || '\t' <= c <= '\r'
    || '\U{1C}' <= c <= ' '
    || c == '\U{85}' || c == '\U{A0}' || c == '\U{1680}'
    || '\U{2000}' <= c <= '\U{200A}'
    || c == '\U{2028}' || c == '\U{2029}' || c == '\U{202F}'
    || c == '\U{205F}' || c == '\U{3000}'
  }

  predicate AllSpace(s: string) {
    forall i :: 0 <= i < |s| ==> IsSpace(s[i])
  }

  /** Lower-casing of one character (ASCII letters only). */
  function LowerChar(c: char): char {
    if 'A' <= c <= 'Z' then (c as int - 'A' as int + 'a' as int) as char else c
  }

  function Lower(s: string): string {
    seq(|s|, i requires 0 <= i < |s| => LowerChar(s[i]))
  }

  /** `s.lstrip()`: the longest suffix of `s` that does not start with white space. */
  function StripLeading(s: string): (r: string)
    ensures |r| <= |s| && r == s[|s| - |r|..]
    ensures forall i :: 0 <= i < |s| - |r| ==> IsSpace(s[i])
    ensures r == [] || !IsSpace(r[0])
  {
    if |s| > 0 && IsSpace(s[0]) then StripLeading(s[1..]) else s
  }

  /** `s.rstrip()`: the longest prefix of `s` that does not end with white space. */
  function StripTrailing(s: string): (r: string)
    ensures |r| <= |s| && r == s[..|r|]
    ensures forall i :: |r| <= i < |s| ==> IsSpace(s[i])
    ensures r == [] || !IsSpace(r[|r| - 1])
  {
    if |s| > 0 && IsSpace(s[|s| - 1]) then StripTrailing(s[..|s| - 1]) else s
  }

  /** `s` is white space, then `r` starting at index `a`, then white space. */
  predicate Padded(s: string, a: int, r: string) {
    && 0 <= a <= |s| - |r|
    && s[a..a + |r|] == r
    && forall i :: 0 <= i < |s| && !(a <= i < a + |r|) ==> IsSpace(s[i])
  }

  lemma PaddedSplit(s: string, a: int, r: string)
    requires Padded(s, a, r)
    ensures s == s[..a] + r + s[a + |r|..]
    ensures AllSpace(s[..a]) && AllSpace(s[a + |r|..])
  {

  }

  /** `s.strip()`: `s` is white space, then `r`, then white space, and `r`
      neither starts nor ends with white space. */
  function Strip(s: string): (r: string)
    ensures exists a :: Padded(s, a, r)
    ensures r == [] || (!IsSpace(r[0]) && !IsSpace(r[|r| - 1]))
    ensures r == [] <==> AllSpace(s)
  {
    var m := StripLeading(s);
    StripBothPadded(s, m, StripTrailing(m));
    StripTrailing(m)
  }

  lemma StripBothPadded(s: string, m: string, r: string)
    requires |m| <= |s| && m == s[|s| - |m|..]
    requires forall i :: 0 <= i < |s| - |m| ==> IsSpace(s[i])
    requires |r| <= |m| && r == m[..|r|]
    requires forall i :: |r| <= i < |m| ==> IsSpace(m[i])
    ensures Padded(s, |s| - |m|, r)
    ensures r == [] ==> AllSpace(s)
    ensures r != [] ==> r[0] == s[|s| - |m|]
  {
    var a := |s| - |m|;
    assert forall i :: a <= i < |s| ==> s[i] == m[i - a];
    assert s[a..a + |r|] == r;
  }

  /** What `_reply_for` matches against: `user_text.lower().strip()`. */
  function Normalize(s: string): string {
    Strip(Lower(s))
  }

  /** Python's `k in t` for strings: `k` occurs somewhere in `t`. */
  ghost predicate IsSubstring(k: string, t: string) {
    exists i :: OccursAt(k, t, i)
  }

  predicate OccursAt(k: string, t: string, i: int) {
    0 <= i <= |t| - |k| && t[i..i + |k|] == k
  }

  /** `k` occurs at `i` when its characters match those of `t` from `i` on. */
  lemma OccursAtChars(k: string, t: string, i: int)
    requires 0 <= i <= |t| - |k|
    requires forall j :: 0 <= j < |k| ==> t[i + j] == k[j]
    ensures OccursAt(k, t, i)
  {
    assert t[i..i + |k|] == k;
  }

  lemma ShiftSubstring(t: string, k: string)
    requires |k| <= |t| && t[..|k|] != k
    ensures IsSubstring(k, t) <==> IsSubstring(k, t[1..])
  {
    if IsSubstring(k, t) {
      var i :| OccursAt(k, t, i);
      assert i != 0;
      assert t[1..][i - 1..i - 1 + |k|] == k;
      assert OccursAt(k, t[1..], i - 1);
    }
    if IsSubstring(k, t[1..]) {
      var i :| OccursAt(k, t[1..], i);
      assert t[i + 1..i + 1 + |k|] == k;
      assert OccursAt(k, t, i + 1);
    }
  }

  /** Computable substring search, scanning `t` from the left. */
  function Contains(t: string, k: string): bool
    decreases |t|
  {
    if |k| > |t| then false
    else if t[..|k|] == k then true
    else Contains(t[1..], k)
  }

  /** The scan finds `k` exactly when `k` occurs in `t`. */
  lemma {:induction false} ContainsIsSubstring(t: string, k: string)
    ensures Contains(t, k) <==> IsSubstring(k, t)
    decreases |t|
  {
    if |k| > |t| {
    } else if t[..|k|] == k {
      assert OccursAt(k, t, 0);
    } else {
      ShiftSubstring(t, k);
      ContainsIsSubstring(t[1..], k);
    }
  }

  lemma {:induction false} LowerAppend(a: string, b: string)
    ensures Lower(a + b) == Lower(a) + Lower(b)
  {
    assert forall i :: 0 <= i < |a + b| ==> Lower(a + b)[i] == (Lower(a) + Lower(b))[i];
  }

  /** Lower-casing leaves white space alone. */
  lemma LowerKeepsSpace(w: string)
    requires AllSpace(w)
    ensures Lower(w) == w
  {
  }

  lemma {:induction false} StripLeadingAppend(x: string, y: string)
    ensures StripLeading(x + y) == if StripLeading(x) == [] then StripLeading(y) else StripLeading(x) + y
    decreases |x|
  {
    if x == [] {
      assert x + y == y;
    } else if IsSpace(x[0]) {
      assert (x + y)[1..] == x[1..] + y;
      StripLeadingAppend(x[1..], y);
    }
  }

  lemma {:induction false} StripTrailingPrepend(x: string, y: string)
    ensures StripTrailing(x + y) == if StripTrailing(y) == [] then StripTrailing(x) else x + StripTrailing(y)
    decreases |y|
  {
    if y == [] {
      assert x + y == x;
    } else if IsSpace(y[|y| - 1]) {
      assert (x + y)[..|x + y| - 1] == x + y[..|y| - 1];
      StripTrailingPrepend(x, y[..|y| - 1]);
    }
  }

  /** White space added on either side does not change `strip()`. */
  lemma StripPadding(w1: string, s: string, w2: string)
    requires AllSpace(w1) && AllSpace(w2)
    ensures Strip(w1 + s + w2) == Strip(s)
  {
    assert w1 + s + w2 == w1 + (s + w2);
    LeadingPad(w1, s + w2);
    TrailingPad(s, w2);
  }

  lemma LeadingPad(w: string, t: string)
    requires AllSpace(w)
    ensures StripLeading(w + t) == StripLeading(t)
  {
    StripLeadingAppend(w, t);
    StripAllSpace(w);
  }

  /** White space after `s` is removed again by `rstrip()` once `lstrip()` has run. */
  lemma TrailingPad(s: string, w: string)
    requires AllSpace(w)
    ensures StripTrailing(StripLeading(s + w)) == StripTrailing(StripLeading(s))
  {
    StripLeadingAppend(s, w);
    StripAllSpace(w);
    var m := StripLeading(s);
    if m != [] {
      StripTrailingPrepend(m, w);
    }
  }

  lemma StripAllSpace(w: string)
    requires AllSpace(w)
    ensures StripLeading(w) == [] && StripTrailing(w) == []
  {
  }

  lemma StripIdempotent(s: string)
    ensures Strip(Strip(s)) == Strip(s)
  {
  }

  /** No character of `s` changes under lower-casing. */
  predicate IsLower(s: string) {
    forall i :: 0 <= i < |s| ==> LowerChar(s[i]) == s[i]
  }

  lemma LowerOfLower(s: string)
    requires IsLower(s)
    ensures Lower(s) == s
  {
  }

  lemma LowerIsLower(s: string)
    ensures IsLower(Lower(s))
  {
  }

  lemma StripKeepsLower(l: string)
    requires IsLower(l)
    ensures IsLower(Strip(l))
  {
    var r := Strip(l);
    var a :| Padded(l, a, r);
    LowerSlice(l, a, a + |r|);
  }

  lemma LowerSlice(l: string, i: int, j: int)
    requires IsLower(l) && 0 <= i <= j <= |l|
    ensures IsLower(l[i..j])
  {
  }

  /** Normalising twice is normalising once. */
  lemma NormalizeIdempotent(s: string)
    ensures Normalize(Normalize(s)) == Normalize(s)
  {
    LowerIsLower(s);
    StripKeepsLower(Lower(s));
    LowerOfLower(Strip(Lower(s)));
    StripIdempotent(Lower(s));
  }

  /** Leading and trailing white space never affects the normal form. */
  lemma NormalizePadding(w1: string, s: string, w2: string)
    requires AllSpace(w1) && AllSpace(w2)
    ensures Normalize(w1 + s + w2) == Normalize(s)
  {
    LowerAppend(w1 + s, w2);
    LowerAppend(w1, s);
    LowerKeepsSpace(w1);
    LowerKeepsSpace(w2);
    StripPadding(w1, Lower(s), w2);
  }

  /** Trimming the text first (as the send step does) does not change its normal form. */
  lemma NormalizeTrimmed(s: string)
    ensures Normalize(Strip(s)) == Normalize(s)
  {
    var r := Strip(s);
    var a :| Padded(s, a, r);
    PaddedSplit(s, a, r);
    NormalizePadding(s[..a], r, s[a + |r|..]);
  }

  /** Two strings that differ only in the case of their letters. */
  predicate SameUpToCase(a: string, b: string) {
    |a| == |b| && forall i :: 0 <= i < |a| ==> LowerChar(a[i]) == LowerChar(b[i])
  }

  lemma NormalizeIgnoresCase(a: string, b: string)
    requires SameUpToCase(a, b)
    ensures Normalize(a) == Normalize(b)
  {
    assert Lower(a) == Lower(b);
  }

  /** Text with no surrounding white space is left alone by `strip()`. */
  lemma StripUnpadded(s: string)
    requires s == [] || (!IsSpace(s[0]) && !IsSpace(s[|s| - 1]))
    ensures Strip(s) == s
  {
  }

  /** Text with no upper-case letter and no surrounding white space is its own normal form. */
  lemma AlreadyNormal(s: string)
    requires forall i :: 0 <= i < |s| ==> !('A' <= s[i] <= 'Z')
    requires s == [] || (!IsSpace(s[0]) && !IsSpace(s[|s| - 1]))
    ensures Normalize(s) == s
  {
    assert IsLower(s);
    LowerOfLower(s);
    StripUnpadded(s);
  }

  /** A phrase read off the characters of a text that is already in normal
      form occurs in its normal form. */
  lemma PhraseInNormal(s: string, k: string, i: int)
    requires 0 <= i <= |s| - |k|
    requires forall j :: 0 <= j < |k| ==> s[i + j] == k[j]
    requires forall j :: 0 <= j < |s| ==> !('A' <= s[j] <= 'Z')
    requires s == [] || (!IsSpace(s[0]) && !IsSpace(s[|s| - 1]))
    ensures IsSubstring(k, Normalize(s))
  {
    OccursAtChars(k, s, i);
    AlreadyNormal(s);
  }

  /** A phrase holding a character the text lacks cannot occur in it. */
  lemma AbsentChar(k: string, t: string, c: char)
    requires c in k && c !in t
    ensures !Contains(t, k)
  {
    forall i | 0 <= i <= |t| - |k|
      ensures !OccursAt(k, t, i)
    {
      assert c !in t[i..i + |k|];
    }
    ContainsIsSubstring(t, k);
  }
}
