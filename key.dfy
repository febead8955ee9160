/** Key normalisation: every public operation looks a name up under its
    trimmed, lower-cased form (`key`, index.js:49-51). */
module KeyNormalization {
  import opened Seqs

  /** The characters `String.prototype.trim` removes: ECMAScript's WhiteSpace
      and LineTerminator code points. */
  predicate IsSpace(c: char) {
    || c == '\t' || c == '\n' || c == '\U{000B}' || c == '\U{000C}' || c == '\r'
    || c == ' ' || c == '\U{00A0}' || c == '\U{1680}'
    || ('\U{2000}' <= c <= '\U{200A}')
    || c == '\U{2028}' || c == '\U{2029}' || c == '\U{202F}' || c == '\U{205F}'
    || c == '\U{3000}' || c == '\U{FEFF}'
  }

  /** Upper-case letters whose lower-case form is the code point 32 above:
      ASCII A-Z and the Latin-1 capitals other than the multiplication sign. */
  predicate IsUpper(c: char) {
    ('A' <= c <= 'Z') || ('\U{00C0}' <= c <= '\U{00DE}' && c != '\U{00D7}')
  }

  /** `toLowerCase` on one character. */
  function LowerChar(c: char): (r: char)
    ensures !IsUpper(r)
    ensures IsSpace(r) <==> IsSpace(c)
    ensures !IsUpper(c) ==> r == c
  {
    if IsUpper(c) then (c as int + 32) as char else c
  }

  /** `toLowerCase`: maps every character. */
  function ToLower(s: string): (r: string)
    ensures |r| == |s|
    ensures forall i | 0 <= i < |s| :: r[i] == LowerChar(s[i])
  {
    seq(|s|, i requires 0 <= i < |s| => LowerChar(s[i]))
  }

  /** Drops the leading white space. */
  function TrimStart(s: string): (r: string)
    ensures |r| <= |s| && r == s[|s| - |r|..]
    ensures forall i | 0 <= i < |s| - |r| :: IsSpace(s[i])
    ensures r == [] || !IsSpace(r[0])
  {
    if s != [] && IsSpace(s[0]) then TrimStart(s[1..]) else s
  }

  /** Drops the trailing white space. */
  function TrimEnd(s: string): (r: string)
    ensures |r| <= |s| && r == s[..|r|]
    ensures forall i | |r| <= i < |s| :: IsSpace(s[i])
    ensures r == [] || !IsSpace(r[|r| - 1])
  {
    if s != [] && IsSpace(s[|s| - 1]) then TrimEnd(s[..|s| - 1]) else s
  }

  /** `String.prototype.trim`: the part of `s` left between its leading and
      its trailing white space. */
  function Trim(s: string): (r: string)
    ensures Trimmed(r)
  {
    var t := TrimStart(s);
    var r := TrimEnd(t);
    assert Trimmed(r) by {
      if r != [] {
        assert r[0] == t[..|r|][0] == t[0];
      }
    }
    r
  }

  /** `trim` cuts a blank prefix and a blank suffix off `s`; with
      `TrimUnique`, this determines `Trim` entirely. */
  lemma TrimUnpads(s: string)
    ensures Unpadded(s, Trim(s))
  {
    var a := TrimStart(s);
    var r := TrimEnd(a);
    assert r == Trim(s);
    CutsUnpad(s, a, r);
  }

  /** `r` is what is left of `s` once a blank prefix of `s`, then a blank
      suffix of the rest, are cut off. */
  lemma CutsUnpad(s: string, a: string, r: string)
    requires |a| <= |s| && a == s[|s| - |a|..] && forall k | 0 <= k < |s| - |a| :: IsSpace(s[k])
    requires |r| <= |a| && r == a[..|r|] && forall k | |r| <= k < |a| :: IsSpace(a[k])
    requires Trimmed(r)
    ensures Unpadded(s, r)
  {
    var w1, w2 := s[..|s| - |a|], a[|r|..];
    assert Blank(w1) by {
      forall k | 0 <= k < |w1| ensures IsSpace(w1[k]) {
        assert w1[k] == s[k];
      }
    }
    assert Blank(w2) by {
      forall k | 0 <= k < |w2| ensures IsSpace(w2[k]) {
        assert w2[k] == a[|r| + k];
      }
    }
    assert s == w1 + r + w2 by {
      SplitAt(a, |r|);
      SplitAt(s, |s| - |a|);
      assert w1 + r + w2 == w1 + (r + w2);
    }
    UnpaddedBy(s, w1, r, w2);
  }

  lemma UnpaddedBy(s: string, w1: string, r: string, w2: string)
    requires Blank(w1) && Blank(w2) && Trimmed(r) && s == w1 + r + w2
    ensures Unpadded(s, r)
  {
  }

  /** Neither end of `s` is white space. */
  predicate Trimmed(s: string) {
    s == [] || (!IsSpace(s[0]) && !IsSpace(s[|s| - 1]))
  }

  /** `r` is `s` with a blank prefix and a blank suffix cut off, and neither
      end of `r` is white space. */
  ghost predicate Unpadded(s: string, r: string) {
    Trimmed(r) && exists w1, w2 | Blank(w1) && Blank(w2) :: s == w1 + r + w2
  }

  /** Only one string is `s` unpadded, so `Trim` is determined by its
      contract. */
  lemma TrimUnique(s: string, r: string)
    requires Unpadded(s, r)
    ensures r == Trim(s)
  {
    var w1, w2 :| Blank(w1) && Blank(w2) && s == w1 + r + w2;
    assert s == w1 + (r + w2);
    TrimStartSkipsBlank(w1, r + w2);
    if r == [] {
      assert r + w2 == w2 + [];
      TrimStartThenBlank([], w2);
    } else {
      assert (r + w2)[0] == r[0];
      TrimEndSkipsBlank(r, w2);
    }
  }

  /** No character of `s` has a lower-case form other than itself. */
  predicate LowerCase(s: string) {
    forall i | 0 <= i < |s| :: !IsUpper(s[i])
  }

  /** `key(str)` for a string argument: the trimmed, lower-cased name under
      which the store keeps a value. */
  function Key(s: string): (r: string)
    ensures Trimmed(r) && LowerCase(r)
    ensures |r| <= |s|
  {
    ToLower(Trim(s))
  }

  /** The key is the name with its padding cut off, lower-cased: with
      `TrimUnique`, this determines `Key` entirely. */
  lemma KeyUnpadsAndLowers(s: string)
    ensures exists t | Unpadded(s, t) :: Key(s) == ToLower(t)
    ensures forall t | Unpadded(s, t) :: Key(s) == ToLower(t)
  {
    TrimUnpads(s);
    forall u | Unpadded(s, u) ensures Key(s) == ToLower(u) {
      TrimUnique(s, u);
    }
  }

  /** A trimmed name without capitals is its own key. */
  lemma KeyFixed(s: string)
    requires Trimmed(s) && LowerCase(s)
    ensures Key(s) == s
  {
    TrimmedFixed(s);
    LowerCaseFixed(s);
  }

  /** Trimming leaves a string with non-blank ends unchanged. */
  lemma TrimmedFixed(s: string)
    requires Trimmed(s)
    ensures Trim(s) == s
  {
    assert Blank([]) && s == [] + s + [];
    TrimUnique(s, s);
  }

  /** Lower-casing leaves a string without capitals unchanged. */
  lemma LowerCaseFixed(s: string)
    requires LowerCase(s)
    ensures ToLower(s) == s
  {
  }

  /** Normalising a normalised key changes nothing. */
  lemma KeyIdempotent(s: string)
    ensures Key(Key(s)) == Key(s)
  {
    var k := Key(s);
    TrimmedFixed(k);
    LowerCaseFixed(k);
  }

  /** Two strings that agree once lower-cased. */
  predicate SameUpToCase(s: string, t: string) {
    |s| == |t| && forall i | 0 <= i < |s| :: LowerChar(s[i]) == LowerChar(t[i])
  }

  lemma {:induction false} TrimStartUpToCase(s: string, t: string)
    requires SameUpToCase(s, t)
    ensures |TrimStart(s)| == |TrimStart(t)|
    decreases |s|
  {
    if s != [] && IsSpace(s[0]) {
      assert LowerChar(s[0]) == LowerChar(t[0]);
      TrimStartUpToCase(s[1..], t[1..]);
    } else if s != [] {
      assert LowerChar(s[0]) == LowerChar(t[0]);
    }
  }

  lemma {:induction false} TrimEndUpToCase(s: string, t: string)
    requires SameUpToCase(s, t)
    ensures |TrimEnd(s)| == |TrimEnd(t)|
    decreases |s|
  {
    if s != [] {
      assert LowerChar(s[|s| - 1]) == LowerChar(t[|t| - 1]);
      if IsSpace(s[|s| - 1]) {
        TrimEndUpToCase(s[..|s| - 1], t[..|t| - 1]);
      }
    }
  }

  /** Keys are case-insensitive: names that differ only in the case of their
      letters normalise to the same key. */
  lemma KeyIgnoresCase(s: string, t: string)
    requires SameUpToCase(s, t)
    ensures Key(s) == Key(t)
  {
    TrimStartUpToCase(s, t);
    var a, b := TrimStart(s), TrimStart(t);
    SliceUpToCase(s, t, |s| - |a|, |s|);
    TrimEndUpToCase(a, b);
    var x, y := TrimEnd(a), TrimEnd(b);
    SliceUpToCase(a, b, 0, |x|);
    LowerUpToCase(x, y);
  }

  /** Two names share a key exactly when, trimmed, they differ at most in
      the case of their letters. */
  lemma KeysCollide(s: string, t: string)
    ensures Key(s) == Key(t) <==> SameUpToCase(Trim(s), Trim(t))
  {
    var x, y := Trim(s), Trim(t);
    if Key(s) == Key(t) {
      assert |x| == |y|;
      forall i | 0 <= i < |x| ensures LowerChar(x[i]) == LowerChar(y[i]) {
        assert ToLower(x)[i] == ToLower(y)[i];
      }
    }
    if SameUpToCase(x, y) {
      LowerUpToCase(x, y);
    }
  }

  lemma SliceUpToCase(s: string, t: string, i: nat, j: nat)
    requires SameUpToCase(s, t) && i <= j <= |s|
    ensures SameUpToCase(s[i..j], t[i..j])
  {
    forall k | 0 <= k < j - i ensures LowerChar(s[i..j][k]) == LowerChar(t[i..j][k]) {
      assert s[i..j][k] == s[i + k] && t[i..j][k] == t[i + k];
    }
  }

  lemma LowerUpToCase(s: string, t: string)
    requires SameUpToCase(s, t)
    ensures ToLower(s) == ToLower(t)
  {
  }

  /** Every character of `w` is white space. */
  predicate Blank(w: string) {
    forall i | 0 <= i < |w| :: IsSpace(w[i])
  }

  lemma {:induction false} TrimStartSkipsBlank(w: string, s: string)
    requires Blank(w)
    ensures TrimStart(w + s) == TrimStart(s)
    decreases |w|
  {
    if w != [] {
      assert (w + s)[0] == w[0] && IsSpace(w[0]);
      assert (w + s)[1..] == w[1..] + s;
      TrimStartSkipsBlank(w[1..], s);
      assert TrimStart(w + s) == TrimStart((w + s)[1..]);
    } else {
      assert w + s == s;
    }
  }

  lemma {:induction false} TrimEndSkipsBlank(s: string, w: string)
    requires Blank(w)
    ensures TrimEnd(s + w) == TrimEnd(s)
    decreases |w|
  {
    if w != [] {
      assert (s + w)[|s + w| - 1] == w[|w| - 1] && IsSpace(w[|w| - 1]);
      assert (s + w)[..|s + w| - 1] == s + w[..|w| - 1];
      TrimEndSkipsBlank(s, w[..|w| - 1]);
      assert TrimEnd(s + w) == TrimEnd((s + w)[..|s + w| - 1]);
    } else {
      assert s + w == s;
    }
  }

  /** Trailing blanks survive TrimStart only when nothing else does, and then
      TrimEnd removes them with the rest. */
  lemma {:induction false} TrimStartThenBlank(s: string, w: string)
    requires Blank(w)
    ensures TrimEnd(TrimStart(s + w)) == TrimEnd(TrimStart(s))
    decreases |s|
  {
    if s == [] {
      assert s + w == w;
      assert w == w + [];
      TrimStartSkipsBlank(w, []);
    } else if IsSpace(s[0]) {
      assert (s + w)[1..] == s[1..] + w;
      TrimStartThenBlank(s[1..], w);
    } else {
      TrimEndSkipsBlank(s, w);
    }
  }

  /** Keys ignore surrounding white space: padding a name on either side with
      blanks does not change its key. */
  lemma KeyIgnoresPadding(w1: string, s: string, w2: string)
    requires Blank(w1) && Blank(w2)
    ensures Key(w1 + s + w2) == Key(s)
  {
    TrimIgnoresPadding(w1, s, w2);
    assert Key(w1 + s + w2) == ToLower(Trim(w1 + s + w2));
  }

  /** `trim` removes any white space added around a string. */
  lemma TrimIgnoresPadding(w1: string, s: string, w2: string)
    requires Blank(w1) && Blank(w2)
    ensures Trim(w1 + s + w2) == Trim(s)
  {
    assert w1 + s + w2 == w1 + (s + w2);
    TrimStartSkipsBlank(w1, s + w2);
    TrimStartThenBlank(s, w2);
    assert Trim(w1 + s + w2) == TrimEnd(TrimStart(w1 + (s + w2)));
  }

}
