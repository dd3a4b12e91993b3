/**
 * The folder-name sanitiser of the collector: keep alphanumerics, spaces,
 * underscores and hyphens; strip the ends; turn the remaining spaces into
 * underscores.
 */
module Collector {
  import opened Text

  /**
   * `str.isalnum` is Unicode's letter and number classes; the model takes it as
   * a parameter `isAlnum`. The ASCII letters and digits are its ASCII part.
   */
  predicate AsciiAlnum(c: char) {
    ('a' <= c <= 'z') || ('A' <= c <= 'Z') || ('0' <= c <= '9')
  }

  /** What the proofs need of `isalnum`: no whitespace character is alphanumeric, as in Python. */
  predicate AlnumNotSpace(isAlnum: char -> bool) {
    forall c :: isAlnum(c) ==> !IsSpace(c)
  }

  /** The ASCII classification meets that requirement. */
  lemma AsciiAlnumNotSpace()
    ensures AlnumNotSpace(AsciiAlnum)
  {
  }

  /** The characters the generator expression lets through. */
  predicate Kept(isAlnum: char -> bool, c: char) {
    isAlnum(c) || c == ' ' || c == '_' || c == '-'
  }

  /** The characters a sanitised folder name is made of. */
  predicate FolderSafe(isAlnum: char -> bool, c: char) {
    isAlnum(c) || c == '_' || c == '-'
  }

  /** `a` is `b` with some characters removed, the rest in their original order. */
  predicate IsSubsequence(a: string, b: string)
    decreases |b|
  {
    if a == [] then true
    else if b == [] then false
    else if a[|a| - 1] == b[|b| - 1] then IsSubsequence(a[..|a| - 1], b[..|b| - 1])
    else IsSubsequence(a, b[..|b| - 1])
  }

  /** `"".join(c for c in name if c.isalnum() or c in (" ", "_", "-"))`. */
  function KeepChars(isAlnum: char -> bool, s: string): (r: string)
    ensures forall i :: 0 <= i < |r| ==> Kept(isAlnum, r[i])
    ensures IsSubsequence(r, s)
  {
    if |s| == 0 then []
    else
      var c, p := s[|s| - 1], KeepChars(isAlnum, s[..|s| - 1]);
      var r := p + (if Kept(isAlnum, c) then [c] else []);
      assert IsSubsequence(r, s) by {
        if Kept(isAlnum, c) {
          assert r[..|r| - 1] == p;
        } else if p != [] {
          assert Kept(isAlnum, p[|p| - 1]);
          assert r == p;
        }
      }
      r
  }

  /** Every kept character survives, as often as it occurs; every other one is dropped. */
  lemma {:induction false} KeepCharsCounts(isAlnum: char -> bool, s: string)
    ensures forall c :: multiset(KeepChars(isAlnum, s))[c] == if Kept(isAlnum, c) then multiset(s)[c] else 0
  {
    if |s| > 0 {
      var p := s[..|s| - 1];
      KeepCharsCounts(isAlnum, p);
      assert s == p + [s[|s| - 1]];
    }
  }

  /** `sanitize_name(name)`. */
  function SanitizeName(isAlnum: char -> bool, name: string): (r: string)
    ensures |r| <= |name|
    ensures forall i :: 0 <= i < |r| ==> FolderSafe(isAlnum, r[i])
    ensures ' ' !in r
  {
    var k := KeepChars(isAlnum, name);
    SubsequenceLength(k, name);
    StripKeepsKept(isAlnum, k);
    SpacesToUnderscores(Strip(k))
  }

  /** Stripping a string of kept characters leaves kept characters only. */
  lemma StripKeepsKept(isAlnum: char -> bool, k: string)
    requires forall i :: 0 <= i < |k| ==> Kept(isAlnum, k[i])
    ensures |Strip(k)| <= |k|
    ensures forall i :: 0 <= i < |Strip(k)| ==> Kept(isAlnum, Strip(k)[i])
  {
    var t := Strip(k);
    forall i | 0 <= i < |t| ensures Kept(isAlnum, t[i]) {
      assert t[i] == k[LeadingSpace(k) + i];
    }
  }

  lemma {:induction false} SubsequenceLength(a: string, b: string)
    requires IsSubsequence(a, b)
    ensures |a| <= |b|
    decreases |b|
  {
    if a != [] {
      if a[|a| - 1] == b[|b| - 1] {
        SubsequenceLength(a[..|a| - 1], b[..|b| - 1]);
      } else {
        SubsequenceLength(a, b[..|b| - 1]);
      }
    }
  }

  /**
   * `r` is `k` with its leading and trailing spaces removed and each inner
   * space turned into an underscore.
   */
  predicate ShapedFrom(r: string, k: string) {
    var a := LeadingSpace(k);
    && a + |r| <= |k|
    && (forall i :: 0 <= i < a ==> k[i] == ' ')
    && (forall i :: a + |r| <= i < |k| ==> k[i] == ' ')
    && (forall i :: 0 <= i < |r| ==> r[i] == if k[a + i] == ' ' then '_' else k[a + i])
    && (r != [] ==> k[a] != ' ' && k[a + |r| - 1] != ' ')
  }

  /**
   * The output is the kept characters with their leading and trailing whitespace
   * removed and each inner space turned into an underscore: an underscore at
   * either end of the output was an underscore in the input, never a space.
   */
  lemma SanitizeNameShape(isAlnum: char -> bool, name: string)
    requires AlnumNotSpace(isAlnum)
    ensures IsSubsequence(KeepChars(isAlnum, name), name)
    ensures ShapedFrom(SanitizeName(isAlnum, name), KeepChars(isAlnum, name))
  {
    KeptShape(isAlnum, KeepChars(isAlnum, name));
  }

  /** Stripping and replacing spaces in a string of kept characters. */
  lemma KeptShape(isAlnum: char -> bool, k: string)
    requires AlnumNotSpace(isAlnum)
    requires forall i :: 0 <= i < |k| ==> Kept(isAlnum, k[i])
    ensures ShapedFrom(SpacesToUnderscores(Strip(k)), k)
  {
    var a, t := LeadingSpace(k), Strip(k);
    assert t == k[a..a + |t|];
    forall i | 0 <= i < |k| && IsSpace(k[i])
      ensures k[i] == ' '
    {
      assert Kept(isAlnum, k[i]);
    }
    var r := SpacesToUnderscores(t);
    forall i | 0 <= i < |r|
      ensures r[i] == if k[a + i] == ' ' then '_' else k[a + i]
    {
      assert t[i] == k[a + i];
    }
  }

  lemma {:induction false} KeepAllKept(isAlnum: char -> bool, s: string)
    requires forall i :: 0 <= i < |s| ==> Kept(isAlnum, s[i])
    ensures KeepChars(isAlnum, s) == s
  {
    if s != [] {
      KeepAllKept(isAlnum, s[..|s| - 1]);
    }
  }

  /** Sanitising a sanitised name changes nothing. */
  lemma SanitizeNameIdempotent(isAlnum: char -> bool, name: string)
    requires AlnumNotSpace(isAlnum)
    ensures SanitizeName(isAlnum, SanitizeName(isAlnum, name)) == SanitizeName(isAlnum, name)
  {
    var r := SanitizeName(isAlnum, name);
    KeepAllKept(isAlnum, r);
    assert r == [] || (!IsSpace(r[0]) && !IsSpace(r[|r| - 1])) by {
      if r != [] {
        assert FolderSafe(isAlnum, r[0]) && FolderSafe(isAlnum, r[|r| - 1]);
      }
    }
    StripNoSpaceEnds(r);
    SpacesToUnderscoresNoSpace(r);
    assert SanitizeName(isAlnum, r) == SpacesToUnderscores(Strip(KeepChars(isAlnum, r)));
  }
}
