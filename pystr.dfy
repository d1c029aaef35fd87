/**
 * The Python `str` operations the pipeline relies on: `isspace`, `strip()`,
 * `rstrip("\n")`, `upper()`/`lower()` (ASCII letters only), `count`,
 * `startswith` and the substring test `in`.
 */
module PyStr {

  /** The characters `str.isspace` accepts, which is what `str.strip()` removes. */
  predicate IsSpace(c: char) {
    var n := c as int;
    (0x09 <= n <= 0x0D) || (0x1C <= n <= 0x20) || n == 0x85 || n == 0xA0 || n == 0x1680
    || (0x2000 <= n <= 0x200A) || n == 0x2028 || n == 0x2029 || n == 0x202F || n == 0x205F
    || n == 0x3000
  }

  /** Whitespace is never a printable ASCII character: `strip()` cannot remove a base letter. */
  lemma SpaceIsNotPrintable(c: char)
    requires IsSpace(c)
    ensures !('!' <= c <= '~')
  {
  }

  predicate StartsWith(s: string, c: char) {
    |s| > 0 && s[0] == c
  }

  /** `pat in s`: exactly when `pat` occurs in `s` at some index (so the empty pattern is in every string). */
  predicate Contains(s: string, pat: string)
    ensures Contains(s, pat) <==> exists i :: OccursAt(s, pat, i)
  {
    ContainsFromIsOccurrence(s, pat, 0);
    ContainsFrom(s, pat, 0)
  }

  /** `pat` occurs in `s` at some index `i` or later, tried from the left. */
  predicate ContainsFrom(s: string, pat: string, i: nat)
    decreases |s| - i
  {
    i + |pat| <= |s| && (s[i..i + |pat|] == pat || ContainsFrom(s, pat, i + 1))
  }

  /** `pat` occurs in `s` at index `i`. */
  predicate OccursAt(s: string, pat: string, i: int) {
    0 <= i && i + |pat| <= |s| && s[i..i + |pat|] == pat
  }

  lemma {:induction false} ContainsFromIsOccurrence(s: string, pat: string, i: nat)
    decreases |s| - i
    ensures ContainsFrom(s, pat, i) <==> exists j :: i <= j && OccursAt(s, pat, j)
  {
    if i + |pat| <= |s| {
      ContainsFromIsOccurrence(s, pat, i + 1);
      if s[i..i + |pat|] == pat {
        assert OccursAt(s, pat, i);
      }
      if exists j :: i <= j && OccursAt(s, pat, j) {
        var j :| i <= j && OccursAt(s, pat, j);
        assert j == i || (i + 1 <= j && OccursAt(s, pat, j));
      }
    }
  }

  /** `s.count(c)` for a one-character pattern. */
  function CountChar(s: string, c: char): (n: nat)
    ensures n <= |s|
  {
    if s == [] then 0 else CountChar(s[..|s| - 1], c) + (if s[|s| - 1] == c then 1 else 0)
  }

  /** `s.count(c)` is the number of occurrences of `c` in `s`. */
  lemma {:induction false} CountCharIsMultiplicity(s: string, c: char)
    ensures CountChar(s, c) == multiset(s)[c]
  {
    if s != [] {
      assert s == s[..|s| - 1] + [s[|s| - 1]];
      CountCharIsMultiplicity(s[..|s| - 1], c);
    }
  }

  /** `s.rstrip("\n")`: every trailing line feed removed, nothing else. */
  function RStripNewlines(s: string): (r: string)
    ensures |r| <= |s| && r == s[..|r|]
    ensures r == [] || r[|r| - 1] != '\n'
    ensures forall i :: |r| <= i < |s| ==> s[i] == '\n'
  {
    if s != [] && s[|s| - 1] == '\n' then RStripNewlines(s[..|s| - 1]) else s
  }

  /** `s.strip()`: whitespace removed at both ends. */
  function Strip(s: string): (r: string)
    ensures |r| <= |s|
    ensures r == [] || (!IsSpace(r[0]) && !IsSpace(r[|r| - 1]))
  {
    if s != [] && IsSpace(s[0]) then Strip(s[1..])
    else if s != [] && IsSpace(s[|s| - 1]) then Strip(s[..|s| - 1])
    else s
  }

  /** How many characters `s.strip()` removes at the front. */
  function StripOffset(s: string): (o: nat)
    ensures o + |Strip(s)| <= |s|
  {
    if s != [] && IsSpace(s[0]) then 1 + StripOffset(s[1..])
    else if s != [] && IsSpace(s[|s| - 1]) then StripOffset(s[..|s| - 1])
    else 0
  }

  /** What `s.strip()` keeps is the slice of `s` that starts at `StripOffset(s)`. */
  lemma StripIsSlice(s: string)
    ensures Strip(s) == s[StripOffset(s)..StripOffset(s) + |Strip(s)|]
  {
    StripKeepsCharacters(s);
  }

  /** Character `i` of `s.strip()` is character `StripOffset(s) + i` of `s`. */
  lemma {:induction false} StripKeepsCharacters(s: string)
    ensures forall i :: 0 <= i < |Strip(s)| ==> Strip(s)[i] == s[StripOffset(s) + i]
  {
    if s != [] && IsSpace(s[0]) {
      StripKeepsCharacters(s[1..]);
    } else if s != [] && IsSpace(s[|s| - 1]) {
      StripKeepsCharacters(s[..|s| - 1]);
    }
  }

  /** Everything `s.strip()` removes, on either side of the slice it keeps, is whitespace. */
  lemma {:induction false} StripRemovesOnlySpace(s: string)
    ensures forall k :: 0 <= k < StripOffset(s) ==> IsSpace(s[k])
    ensures forall k :: StripOffset(s) + |Strip(s)| <= k < |s| ==> IsSpace(s[k])
  {
    if s != [] && IsSpace(s[0]) {
      var t := s[1..];
      StripRemovesOnlySpace(t);
      var o, r := StripOffset(t), Strip(t);
      forall k | 0 <= k < |s| && (k < o + 1 || o + 1 + |r| <= k)
        ensures IsSpace(s[k])
      {
        if k > 0 {
          assert s[k] == t[k - 1];
        }
      }
    } else if s != [] && IsSpace(s[|s| - 1]) {
      var t := s[..|s| - 1];
      StripRemovesOnlySpace(t);
      var o, r := StripOffset(t), Strip(t);
      forall k | 0 <= k < |s| && (k < o || o + |r| <= k)
        ensures IsSpace(s[k])
      {
        if k < |s| - 1 {
          assert s[k] == t[k];
        }
      }
    }
  }

  /**
   * Stripping a line whose only line feed, if any, is its last character
   * leaves no line feed at all.
   */
  lemma {:induction false} StripRemovesTerminator(s: string)
    requires forall k :: 0 <= k < |s| - 1 ==> s[k] != '\n'
    ensures '\n' !in Strip(s)
  {
    if s != [] && IsSpace(s[0]) {
      var t := s[1..];
      assert forall k :: 0 <= k < |t| - 1 ==> t[k] == s[k + 1];
      StripRemovesTerminator(t);
    } else if s != [] && IsSpace(s[|s| - 1]) {
      var t := s[..|s| - 1];
      assert forall k :: 0 <= k < |t| - 1 ==> t[k] == s[k];
      StripRemovesTerminator(t);
    } else {
      assert forall k :: 0 <= k < |s| ==> s[k] != '\n';
    }
  }

  function UpperChar(c: char): char {
    if 'a' <= c <= 'z' then (c as int - 32) as char else c
  }

  function LowerChar(c: char): char {
    if 'A' <= c <= 'Z' then (c as int + 32) as char else c
  }

  /** `s.upper()` on ASCII letters: the length is kept and no lower-case letter is left. */
  function Upper(s: string): (r: string)
    ensures |r| == |s|
    ensures forall c :: 'a' <= c <= 'z' ==> c !in r
  {
    seq(|s|, i requires 0 <= i < |s| => UpperChar(s[i]))
  }

  /** `s.lower()` on ASCII letters: the length is kept and no upper-case letter is left. */
  function Lower(s: string): (r: string)
    ensures |r| == |s|
    ensures forall c :: 'A' <= c <= 'Z' ==> c !in r
  {
    seq(|s|, i requires 0 <= i < |s| => LowerChar(s[i]))
  }

  /** Lower-casing commutes with removing trailing line feeds. */
  lemma {:induction false} LowerRStripNewlines(s: string)
    ensures RStripNewlines(Lower(s)) == Lower(RStripNewlines(s))
  {
    if s != [] {
      assert Lower(s)[..|s| - 1] == Lower(s[..|s| - 1]);
      if s[|s| - 1] == '\n' {
        LowerRStripNewlines(s[..|s| - 1]);
      }
    }
  }

  /** Upper-casing commutes with removing trailing line feeds. */
  lemma {:induction false} UpperRStripNewlines(s: string)
    ensures RStripNewlines(Upper(s)) == Upper(RStripNewlines(s))
  {
    if s != [] {
      assert Upper(s)[..|s| - 1] == Upper(s[..|s| - 1]);
      if s[|s| - 1] == '\n' {
        UpperRStripNewlines(s[..|s| - 1]);
      }
    }
  }
}
