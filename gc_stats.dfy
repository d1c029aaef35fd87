/** `gc_content`: the GC percentage and the length of a nucleotide fragment. */
module GcStats {
  import opened Wrappers
  import opened PyStr

  /** What `gc_content` returns: the GC percentage (exact, before rounding) and the length. */
  datatype GcStat = GcStat(percent: real, length: nat)

  /** A guanine or cytosine base, in either case. */
  predicate IsGcBase(c: char) {
    c == 'G' || c == 'g' || c == 'C' || c == 'c'
  }

  /** Number of G/g/C/c characters in `s`. */
  function GcBases(s: string): (n: nat)
    ensures n <= |s|
  {
    if s == [] then 0 else GcBases(s[..|s| - 1]) + (if IsGcBase(s[|s| - 1]) then 1 else 0)
  }

  /**
   * gc_content: strip trailing line feeds, upper-case, count "G" and "C",
   * divide by the length. An empty fragment divides by zero.
   */
  function GcContent(sequence: string): (r: Result<GcStat, PyError>)
    ensures r.Err? <==> RStripNewlines(sequence) == []
    ensures r.Err? ==> r.error == ZeroDivisionError
    ensures r.Ok? ==> var t := RStripNewlines(sequence);
                      r.value.length == |t| &&
                      r.value.percent == 100.0 * (GcBases(t) as real / |t| as real)
    ensures r.Ok? ==> 0.0 <= r.value.percent <= 100.0
  {
    var t := RStripNewlines(sequence);
    var upper := Upper(t);
    var gc := CountChar(upper, 'G') + CountChar(upper, 'C');
    if |upper| == 0 then Err(ZeroDivisionError)
    else
      UpperCountIsGcBases(t);
      PercentBounds(gc, |upper|);
      Ok(GcStat(100.0 * (gc as real / |upper| as real), |upper|))
  }

  /** Counting "G" and "C" after upper-casing counts the G/C bases of either case. */
  lemma {:induction false} UpperCountIsGcBases(t: string)
    ensures CountChar(Upper(t), 'G') + CountChar(Upper(t), 'C') == GcBases(t)
  {
    if t != [] {
      var init := t[..|t| - 1];
      assert Upper(t)[..|t| - 1] == Upper(init);
      UpperCountIsGcBases(init);
    }
  }

  lemma PercentBounds(gc: nat, len: nat)
    requires 0 < len && gc <= len
    ensures 0.0 <= 100.0 * (gc as real / len as real) <= 100.0
  {
    assert gc as real / len as real <= 1.0;
  }

  /** Lower-casing a fragment does not change its G/C count. */
  lemma {:induction false} LowerKeepsGcBases(t: string)
    ensures GcBases(Lower(t)) == GcBases(t)
  {
    if t != [] {
      assert Lower(t)[..|t| - 1] == Lower(t[..|t| - 1]);
      LowerKeepsGcBases(t[..|t| - 1]);
    }
  }

  /** Upper-casing a fragment does not change its G/C count. */
  lemma {:induction false} UpperKeepsGcBases(t: string)
    ensures GcBases(Upper(t)) == GcBases(t)
  {
    if t != [] {
      assert Upper(t)[..|t| - 1] == Upper(t[..|t| - 1]);
      UpperKeepsGcBases(t[..|t| - 1]);
    }
  }

  /** gc_content is case-insensitive: the same result for the lower- and upper-cased input. */
  lemma GcContentIgnoresCase(s: string)
    ensures GcContent(Lower(s)) == GcContent(s)
    ensures GcContent(Upper(s)) == GcContent(s)
  {
    LowerRStripNewlines(s);
    LowerKeepsGcBases(RStripNewlines(s));
    UpperRStripNewlines(s);
    UpperKeepsGcBases(RStripNewlines(s));
  }

  /** The G/C count of a concatenation is the sum of the counts. */
  lemma {:induction false} GcBasesConcat(a: string, b: string)
    ensures GcBases(a + b) == GcBases(a) + GcBases(b)
  {
    if b != [] {
      var b' := b[..|b| - 1];
      assert (a + b)[..|a + b| - 1] == a + b';
      GcBasesConcat(a, b');
    } else {
      assert a + b == a;
    }
  }

  /** The G/C count depends only on the multiset of characters. */
  lemma {:induction false} GcBasesOfMultiset(s: string)
    ensures GcBases(s) == multiset(s)['G'] + multiset(s)['g'] + multiset(s)['C'] + multiset(s)['c']
  {
    if s != [] {
      var init := s[..|s| - 1];
      assert s == init + [s[|s| - 1]];
      assert multiset(s) == multiset(init) + multiset{s[|s| - 1]};
      GcBasesOfMultiset(init);
    }
  }

  /** A permutation of a fragment has the same G/C count. */
  lemma PermutationKeepsGcBases(s: string, t: string)
    requires multiset(s) == multiset(t)
    ensures GcBases(s) == GcBases(t)
  {
    GcBasesOfMultiset(s);
    GcBasesOfMultiset(t);
  }

  /** A non-empty fragment that does not end in a line feed never divides by zero, and its length is kept. */
  lemma NoTrailingNewlineIsDefined(s: string)
    requires s != [] && s[|s| - 1] != '\n'
    ensures GcContent(s).Ok? && GcContent(s).value.length == |s|
  {
  }
}
