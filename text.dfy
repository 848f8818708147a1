/** The key normalisation shared by both stores: Python's `text.strip().lower()`,
    restricted to ASCII (non-ASCII characters are neither stripped nor case-mapped). */
module Text {

  /** Python's `str.isspace()` on ASCII: tab, line feed, vertical tab, form feed,
      carriage return, the separators 0x1C..0x1F, and the space character. */
  predicate IsSpace(c: char) {
    9 <= c as int <= 13 || 28 <= c as int <= 32
  }

  function TrimLeft(s: string): string {
    if |s| > 0 && IsSpace(s[0]) then TrimLeft(s[1..]) else s
  }

  function TrimRight(s: string): string {
    if |s| > 0 && IsSpace(s[|s| - 1]) then TrimRight(s[..|s| - 1]) else s
  }

  /** Python's `s.strip()`. */
  function Strip(s: string): string {
    TrimRight(TrimLeft(s))
  }

  /** Trimming the left end removes a prefix made of whitespace only, and stops at the
      first character that is not whitespace. */
  lemma {:induction false} TrimLeftShape(s: string)
    ensures |TrimLeft(s)| <= |s| && TrimLeft(s) == s[|s| - |TrimLeft(s)|..]
    ensures forall i :: 0 <= i < |s| - |TrimLeft(s)| ==> IsSpace(s[i])
    ensures |TrimLeft(s)| > 0 ==> !IsSpace(TrimLeft(s)[0])
    decreases |s|
  {
    if |s| > 0 && IsSpace(s[0]) {
      TrimLeftShape(s[1..]);
      forall i | 1 <= i < |s| - |TrimLeft(s)| ensures IsSpace(s[i]) {
        assert s[i] == s[1..][i - 1];
      }
    }
  }

  /** Trimming the right end removes a suffix made of whitespace only, and stops at the
      last character that is not whitespace. */
  lemma {:induction false} TrimRightShape(s: string)
    ensures |TrimRight(s)| <= |s| && TrimRight(s) == s[..|TrimRight(s)|]
    ensures forall i :: |TrimRight(s)| <= i < |s| ==> IsSpace(s[i])
    ensures |TrimRight(s)| > 0 ==> !IsSpace(TrimRight(s)[|TrimRight(s)| - 1])
    decreases |s|
  {
    if |s| > 0 && IsSpace(s[|s| - 1]) {
      TrimRightShape(s[..|s| - 1]);
      forall i | |TrimRight(s)| <= i < |s| - 1 ensures IsSpace(s[i]) {
        assert s[i] == s[..|s| - 1][i];
      }
    }
  }

  /** `strip()` keeps the middle of the text, `s[l..l + |r|]`, and everything it drops on
      either side is whitespace; what it keeps neither starts nor ends with whitespace. */
  lemma StripShape(s: string)
    ensures var r, l := Strip(s), |s| - |TrimLeft(s)|;
            && 0 <= l && l + |r| <= |s| && r == s[l..l + |r|]
            && (forall i :: 0 <= i < l ==> IsSpace(s[i]))
            && (forall i :: l + |r| <= i < |s| ==> IsSpace(s[i]))
            && (|r| > 0 ==> !IsSpace(r[0]) && !IsSpace(r[|r| - 1]))
  {
    var t := TrimLeft(s);
    TrimLeftShape(s);
    TrimRightShape(t);
    var l := |s| - |t|;
    forall i | l + |Strip(s)| <= i < |s| ensures IsSpace(s[i]) {
      assert s[i] == t[i - l];
    }
  }

  function LowerChar(c: char): char {
    if 'A' <= c <= 'Z' then (c as int + 32) as char else c
  }

  /** Python's `s.lower()` on ASCII letters. */
  function Lower(s: string): (r: string)
    ensures |r| == |s|
  {
    if s == [] then [] else [LowerChar(s[0])] + Lower(s[1..])
  }

  lemma {:induction false} LowerAt(s: string, i: nat)
    requires i < |s|
    ensures Lower(s)[i] == LowerChar(s[i])
    decreases |s|
  {
    if i > 0 {
      LowerAt(s[1..], i - 1);
    }
  }

  lemma {:induction false} LowerPrefix(s: string, n: nat)
    requires n <= |s|
    ensures Lower(s)[..n] == Lower(s[..n])
    decreases |s|
  {
    if n > 0 {
      LowerPrefix(s[1..], n - 1);
      assert s[..n][1..] == s[1..][..n - 1];
    }
  }

  /** The join key of both stores: `s.strip().lower()`. */
  function Norm(s: string): string {
    Lower(Strip(s))
  }

  /** `k` is the key of some text. */
  ghost predicate IsKey(k: string) {
    exists s :: Norm(s) == k
  }

  /** A key is its own key: normalising it changes nothing. */
  lemma KeyIsNormal(k: string)
    requires IsKey(k)
    ensures Norm(k) == k
  {
    var s :| Norm(s) == k;
    NormIdempotent(s);
  }

  lemma StripIdempotent(s: string)
    ensures Strip(Strip(s)) == Strip(s)
  {
    var r := Strip(s);
    StripShape(s);
    assert TrimLeft(r) == r;
    assert TrimRight(r) == r;
  }

  lemma {:induction false} LowerIdempotent(s: string)
    ensures Lower(Lower(s)) == Lower(s)
    decreases |s|
  {
    if s != [] {
      LowerIdempotent(s[1..]);
    }
  }

  lemma {:induction false} TrimLeftLower(s: string)
    ensures TrimLeft(Lower(s)) == Lower(TrimLeft(s))
    decreases |s|
  {
    if |s| > 0 {
      if IsSpace(s[0]) {
        TrimLeftLower(s[1..]);
      }
    }
  }

  lemma {:induction false} TrimRightLower(s: string)
    ensures TrimRight(Lower(s)) == Lower(TrimRight(s))
    decreases |s|
  {
    if |s| > 0 {
      LowerAt(s, |s| - 1);
      LowerPrefix(s, |s| - 1);
      if IsSpace(s[|s| - 1]) {
        TrimRightLower(s[..|s| - 1]);
      }
    }
  }

  /** Stripping and lower-casing commute, since no letter is a space. */
  lemma StripLower(s: string)
    ensures Strip(Lower(s)) == Lower(Strip(s))
  {
    TrimLeftLower(s);
    TrimRightLower(TrimLeft(s));
  }

  /** A normalised key normalises to itself, so keys can be compared after re-normalising. */
  lemma NormIdempotent(s: string)
    ensures Norm(Norm(s)) == Norm(s)
  {
    StripLower(Strip(s));
    StripIdempotent(s);
    LowerIdempotent(Strip(s));
  }
}
