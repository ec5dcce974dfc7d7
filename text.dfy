/** String operations the core borrows from its runtimes: case folding
    (`toLowerCase`, `str.lower`), literal case-insensitive global replacement
    (`String.prototype.replace` with a `gi` pattern) and whitespace trimming
    (`String.prototype.trim`, `str.strip`). Case folding is ASCII only: the
    Bengali script has no letter case. */
module Text {

  // ---------------------------------------------------------------------------
  // Case folding

  function LowerChar(c: char): (d: char)
    ensures 'A' <= c <= 'Z' ==> d as int == c as int + 32
    ensures !('A' <= c <= 'Z') ==> d == c
  {
    if 'A' <= c <= 'Z' then (c as int + 32) as char else c
  }

  function Lower(s: string): (t: string)
    ensures |t| == |s|
    ensures forall i :: 0 <= i < |s| ==> t[i] == LowerChar(s[i])
  {
    seq(|s|, i requires 0 <= i < |s| => LowerChar(s[i]))
  }

  lemma LowerIdempotent(s: string)
    ensures Lower(Lower(s)) == Lower(s)
  {
  }

  lemma LowerSlice(s: string, i: int, j: int)
    requires 0 <= i <= j <= |s|
    ensures Lower(s[i..j]) == Lower(s)[i..j]
  {
  }

  /** Every character of `s` is a 7-bit ASCII character. */
  predicate Ascii(s: string) {
    forall i :: 0 <= i < |s| ==> s[i] < '\U{80}'
  }

  lemma AsciiConcat(a: string, b: string)
    requires Ascii(a) && Ascii(b)
    ensures Ascii(a + b)
  {
    forall i | 0 <= i < |a + b| ensures (a + b)[i] < '\U{80}' {
      if i < |a| {
        assert (a + b)[i] == a[i];
      } else {
        assert (a + b)[i] == b[i - |a|];
      }
    }
  }

  /** No character of `k` folds to the same character as `c`. */
  predicate FoldsApart(c: char, k: string) {
    forall j :: 0 <= j < |k| ==> LowerChar(k[j]) != LowerChar(c)
  }

  lemma NonAsciiFoldsApart(c: char, k: string)
    requires Ascii(k) && c >= '\U{80}'
    ensures FoldsApart(c, k)
  {
  }

  // ---------------------------------------------------------------------------
  // Case-insensitive literal occurrences

  /** `k` occurs in `s` at position `i`, ignoring letter case. */
  predicate MatchAt(s: string, k: string, i: int) {
    0 <= i && i + |k| <= |s| && forall j :: 0 <= j < |k| ==> LowerChar(s[i + j]) == LowerChar(k[j])
  }

  predicate Occurs(s: string, k: string) {
    exists i :: 0 <= i <= |s| && MatchAt(s, k, i)
  }

  lemma MatchShift(s: string, k: string, j: int)
    requires |s| > 0 && 0 <= j
    ensures MatchAt(s[1..], k, j) <==> MatchAt(s, k, j + 1)
  {
  }

  /** The leftmost position at which `k` occurs in `s`, or `|s|` when it does not occur. */
  function Leftmost(s: string, k: string): (m: nat)
    requires |k| > 0
    ensures m <= |s|
    ensures m < |s| ==> MatchAt(s, k, m)
    ensures forall j :: 0 <= j < m ==> !MatchAt(s, k, j)
    ensures m == |s| <==> !Occurs(s, k)
    decreases |s|
  {
    if |s| == 0 then 0
    else if MatchAt(s, k, 0) then 0
    else
      var m' := Leftmost(s[1..], k);
      forall j | 0 <= j < 1 + m' ensures !MatchAt(s, k, j) {
        if j > 0 { MatchShift(s, k, j - 1); }
      }
      if m' < |s| - 1 then
        MatchShift(s, k, m');
        1 + m'
      else
        assert !Occurs(s, k) by {
          forall j | MatchAt(s, k, j) ensures false {
            if j > 0 { MatchShift(s, k, j - 1); }
          }
        }
        1 + m'
  }

  /** If `inner` occurs in `outer` at `off` and `outer` occurs in `s`, then
      `inner` occurs in `s`. */
  lemma OccursInside(s: string, outer: string, inner: string, off: nat)
    requires MatchAt(outer, inner, off)
    requires Occurs(s, outer)
    ensures Occurs(s, inner)
  {
    var i :| 0 <= i <= |s| && MatchAt(s, outer, i);
    forall j | 0 <= j < |inner| ensures LowerChar(s[i + off + j]) == LowerChar(inner[j]) {
      assert LowerChar(s[i + (off + j)]) == LowerChar(outer[off + j]);
    }
    assert MatchAt(s, inner, i + off);
  }

  // ---------------------------------------------------------------------------
  // Global case-insensitive replacement of a literal

  /** `s.replace(new RegExp(k, "gi"), r)` for a pattern without metacharacters:
      find the leftmost case-insensitive occurrence of `k`, replace it by `r`,
      and go on after it, so occurrences do not overlap and inserted text is
      never rescanned. */
  function ReplaceAll(s: string, k: string, r: string): string
    requires |k| > 0
    decreases |s|
  {
    var m := Leftmost(s, k);
    if m == |s| then s
    else s[..m] + r + ReplaceAll(s[m + |k|..], k, r)
  }

  /** Replacing with a non-empty text never produces the empty text from a
      non-empty one. */
  lemma ReplaceAllEmpty(s: string, k: string, r: string)
    requires |k| > 0 && |r| > 0
    ensures ReplaceAll(s, k, r) == "" <==> s == ""
  {
    if Occurs(s, k) {
      var m := Leftmost(s, k);
      assert |ReplaceAll(s, k, r)| >= |r|;
    }
  }

  /** After replacement no occurrence of `k` is left, provided the
      replacement cannot take part in one: its first and last characters
      fold apart from every character of `k`, and `k` does not occur in it. */
  lemma {:induction false} ReplaceAllRemovesKey(s: string, k: string, r: string)
    requires |k| > 0 && |r| > 0
    requires FoldsApart(r[0], k) && FoldsApart(r[|r| - 1], k)
    requires !Occurs(r, k)
    ensures !Occurs(ReplaceAll(s, k, r), k)
    decreases |s|
  {
    if Leftmost(s, k) == |s| {
      ReplaceAllIdentity(s, k, r);
    } else {
      var rest := s[Leftmost(s, k) + |k|..];
      ReplaceAllRemovesKey(rest, k, r);
      ReplaceAllAtLeftmost(s, k, r);
      RemovesKeyStep(s, k, r, ReplaceAll(rest, k, r), ReplaceAll(s, k, r));
    }
  }

  /** One step of the induction: `whole` is `s` with its leftmost
      occurrence of `k` replaced by `r` and the rest replaced by `tail`; when
      neither `r` nor `tail` holds an occurrence, `whole` holds none. */
  lemma RemovesKeyStep(s: string, k: string, r: string, tail: string, whole: string)
    requires |k| > 0 && |r| > 0 && Leftmost(s, k) < |s|
    requires FoldsApart(r[0], k) && FoldsApart(r[|r| - 1], k)
    requires !Occurs(r, k) && !Occurs(tail, k)
    requires whole == s[..Leftmost(s, k)] + r + tail
    ensures !Occurs(whole, k)
  {
    PrefixNoMatch(s, k, Leftmost(s, k));
    NoOccurrenceAcross(s[..Leftmost(s, k)], r, tail, k, whole);
  }

  /** Replacement is the identity on a text in which `k` does not occur. */
  lemma ReplaceAllIdentity(s: string, k: string, r: string)
    requires |k| > 0 && !Occurs(s, k)
    ensures ReplaceAll(s, k, r) == s
  {
  }

  /** Replacement copies `s` up to the leftmost occurrence of `k`, inserts
      `r` and goes on after that occurrence. */
  lemma ReplaceAllAtLeftmost(s: string, k: string, r: string)
    requires |k| > 0 && Leftmost(s, k) < |s|
    ensures ReplaceAll(s, k, r) == s[..Leftmost(s, k)] + r + ReplaceAll(s[Leftmost(s, k) + |k|..], k, r)
  {
  }

  /** No occurrence lies inside the part before the leftmost one. */
  lemma PrefixNoMatch(s: string, k: string, m: nat)
    requires |k| > 0 && m <= |s| && forall j :: 0 <= j < m ==> !MatchAt(s, k, j)
    ensures forall j :: 0 <= j && j + |k| <= m ==> !MatchAt(s[..m], k, j)
  {
    forall j | 0 <= j && j + |k| <= m ensures !MatchAt(s[..m], k, j) {
      assert !MatchAt(s, k, j);
      var q :| 0 <= q < |k| && LowerChar(s[j + q]) != LowerChar(k[q]);
      assert s[..m][j + q] == s[j + q];
    }
  }

  lemma NoOccurrenceAcross(a: string, r: string, t: string, k: string, whole: string)
    requires |k| > 0 && |r| > 0 && whole == a + r + t
    requires FoldsApart(r[0], k) && FoldsApart(r[|r| - 1], k)
    requires !Occurs(r, k) && !Occurs(t, k)
    requires forall j :: 0 <= j && j + |k| <= |a| ==> !MatchAt(a, k, j)
    ensures !Occurs(whole, k)
  {
    forall i | 0 <= i <= |whole| ensures !MatchAt(whole, k, i) {
      NoMatchAcross(a, r, t, k, i);
    }
  }

  /** No occurrence of `k` in `a + r + t` when none lies inside `a`, none in
      `t`, and `r` blocks every occurrence that would overlap it. */
  lemma NoMatchAcross(a: string, r: string, t: string, k: string, i: int)
    requires |k| > 0 && |r| > 0
    requires FoldsApart(r[0], k) && FoldsApart(r[|r| - 1], k)
    requires !Occurs(r, k) && !Occurs(t, k)
    requires forall j :: 0 <= j && j + |k| <= |a| ==> !MatchAt(a, k, j)
    ensures !MatchAt(a + r + t, k, i)
  {
    var res := a + r + t;
    var m := |a|;
    if 0 <= i && i + |k| <= |res| {
      // a position inside the window at which `res` and `k` differ
      var q: int;
      if i + |k| <= m {
        assert !MatchAt(a, k, i);
        q :| 0 <= q < |k| && LowerChar(a[i + q]) != LowerChar(k[q]);
        assert res[i + q] == a[i + q];
      } else if i <= m {
        q := m - i;
        assert res[i + q] == r[0];
      } else if i + |k| <= m + |r| {
        assert !MatchAt(r, k, i - m);
        q :| 0 <= q < |k| && LowerChar(r[i - m + q]) != LowerChar(k[q]);
        assert res[i + q] == r[i - m + q];
      } else if i < m + |r| {
        q := m + |r| - 1 - i;
        assert res[i + q] == r[|r| - 1];
      } else {
        var j := i - m - |r|;
        assert !MatchAt(t, k, j);
        q :| 0 <= q < |k| && LowerChar(t[j + q]) != LowerChar(k[q]);
        assert res[i + q] == t[j + q];
      }
      assert LowerChar(res[i + q]) != LowerChar(k[q]);
    }
  }

  // ---------------------------------------------------------------------------
  // Trimming

  /** The whitespace class of `String.prototype.trim`: WhiteSpace and
      LineTerminator of ECMAScript (section 12.2 and 12.3 of ECMA-262). */
  predicate JsWhitespace(c: char) {
    c == '\t' || c == '\n' || c == '\U{0B}' || c == '\U{0C}' || c == '\r' || c == ' '
    || c == '\U{A0}' || c == '\U{1680}' || ('\U{2000}' <= c <= '\U{200A}')
    || c == '\U{2028}' || c == '\U{2029}' || c == '\U{202F}' || c == '\U{205F}'
    || c == '\U{3000}' || c == '\U{FEFF}'
  }

  /** The whitespace class of Python's `str.strip()` with no argument. */
  predicate PyWhitespace(c: char) {
    ('\t' <= c <= '\r') || ('\U{1C}' <= c <= ' ') || c == '\U{85}' || c == '\U{A0}'
    || c == '\U{1680}' || ('\U{2000}' <= c <= '\U{200A}') || c == '\U{2028}'
    || c == '\U{2029}' || c == '\U{202F}' || c == '\U{205F}' || c == '\U{3000}'
  }

  /** The two whitespace classes the core trims by. */
  datatype Spaces = JsSpaces | PySpaces

  predicate IsSpace(c: char, w: Spaces) {
    if w == JsSpaces then JsWhitespace(c) else PyWhitespace(c)
  }

  function TrimStart(s: string, w: Spaces): (t: string)
    ensures |t| <= |s| && t == s[|s| - |t|..]
    ensures forall i :: 0 <= i < |s| - |t| ==> IsSpace(s[i], w)
    ensures |t| > 0 ==> !IsSpace(t[0], w)
  {
    if |s| > 0 && IsSpace(s[0], w) then TrimStart(s[1..], w) else s
  }

  function TrimEnd(s: string, w: Spaces): (t: string)
    ensures |t| <= |s| && t == s[..|t|]
    ensures forall i :: |t| <= i < |s| ==> IsSpace(s[i], w)
    ensures |t| > 0 ==> !IsSpace(t[|t| - 1], w)
  {
    if |s| > 0 && IsSpace(s[|s| - 1], w) then TrimEnd(s[..|s| - 1], w) else s
  }

  /** `t` is the slice of `s` starting at `i`, and every character of `s`
      outside that slice is of class `w`. */
  predicate TrimmedAt(s: string, t: string, i: int, w: Spaces) {
    && 0 <= i <= |s| - |t| && t == s[i..i + |t|]
    && (forall k :: 0 <= k < i ==> IsSpace(s[k], w))
    && (forall k :: i + |t| <= k < |s| ==> IsSpace(s[k], w))
  }

  /** Leading and trailing characters of class `w` removed: what is left is a
      slice of the input, and only characters of the class are dropped. */
  function Trim(s: string, w: Spaces): (t: string)
    ensures exists i :: TrimmedAt(s, t, i, w)
  {
    var a := TrimStart(s, w);
    var t := TrimEnd(a, w);
    TrimSlice(s, a, t, w);
    t
  }

  lemma TrimSlice(s: string, a: string, t: string, w: Spaces)
    requires |a| <= |s| && a == s[|s| - |a|..]
    requires forall k :: 0 <= k < |s| - |a| ==> IsSpace(s[k], w)
    requires |t| <= |a| && t == a[..|t|]
    requires forall k :: |t| <= k < |a| ==> IsSpace(a[k], w)
    ensures TrimmedAt(s, t, |s| - |a|, w)
  {
    var i := |s| - |a|;
    assert t == s[i..i + |t|];
    forall k | i + |t| <= k < |s| ensures IsSpace(s[k], w) {
      assert s[k] == a[k - i];
    }
  }

  /** A text trims to nothing exactly when all of its characters are whitespace. */
  lemma TrimEmptyIff(s: string, w: Spaces)
    ensures Trim(s, w) == "" <==> forall i :: 0 <= i < |s| ==> IsSpace(s[i], w)
  {
    var a := TrimStart(s, w);
    if forall i :: 0 <= i < |s| ==> IsSpace(s[i], w) {
    } else {
      var i :| 0 <= i < |s| && !IsSpace(s[i], w);
      assert |a| > 0 && a[i - (|s| - |a|)] == s[i];
      var b := TrimEnd(a, w);
    }
  }

  /** A trimmed text starts and ends with a character outside the class. */
  lemma TrimEnds(s: string, w: Spaces)
    ensures var t := Trim(s, w); |t| > 0 ==> !IsSpace(t[0], w) && !IsSpace(t[|t| - 1], w)
  {
    var a := TrimStart(s, w);
    var t := TrimEnd(a, w);
    assert Trim(s, w) == t;
    if |t| > 0 {
      assert |a| > 0 && !IsSpace(a[0], w);
      assert t == a[..|t|] && t[0] == a[0];
      assert !IsSpace(t[|t| - 1], w);
    }
  }

  /** Trimming leaves alone a text whose ends are outside the class. */
  lemma TrimIdentity(s: string, w: Spaces)
    requires |s| > 0 ==> !IsSpace(s[0], w) && !IsSpace(s[|s| - 1], w)
    ensures Trim(s, w) == s
  {
  }
}
