/**
 * `gc_list_generator`: GC percentages over consecutive, non-overlapping
 * windows of 70 bases, for a sequence and for one whole-sequence shuffle of it.
 *
 * The specification functions are stated for any per-window statistic
 * `stat`; gc_list_generator uses `GcContent`.
 */
module Profiler {
  import opened Wrappers
  import opened GcStats

  /** A statistic computed on each window, such as `GcContent`. */
  type WindowStat = string -> Result<GcStat, PyError>

  /**
   * Number of windows over `n` bases: positions 0, 70, 140, ... strictly
   * below `n`, that is the ceiling of n / 70. The windows cover `n` and the
   * last one starts before it.
   */
  function WindowCount(n: nat): (c: nat)
    ensures c * 70 >= n
    ensures c > 0 ==> (c - 1) * 70 < n
  {
    (n + 70 - 1) / 70
  }

  /** Arithmetic of stepping from window `m - 1` to window `m`. */
  lemma NextWindow(n: nat, m: nat)
    requires 0 < m <= WindowCount(n)
    ensures m * 70 < n ==> m < WindowCount(n)
    ensures m * 70 >= n ==> m == WindowCount(n)
  {
  }

  /** `sequence[x:x + 70]` for the `k`-th window start `x = 70 * k` (the slice stops at the end). */
  function Window(s: string, k: nat): (w: string)
    requires k < WindowCount(|s|)
    ensures 1 <= |w| <= 70
    ensures k + 1 < WindowCount(|s|) ==> |w| == 70
  {
    var start := k * 70;
    s[start..if start + 70 <= |s| then start + 70 else |s|]
  }

  /** The window the loop slices at `x = 70 * k`. */
  lemma WindowAt(s: string, k: nat, x: nat)
    requires k < WindowCount(|s|) && x == k * 70
    ensures x < |s| && Window(s, k) == s[x..if x + 70 <= |s| then x + 70 else |s|]
  {
  }

  /** The windows of `s`, in order: each holds 70 bases except possibly the last, which holds at least one. */
  function Windows(s: string): (ws: seq<string>)
    ensures |ws| == WindowCount(|s|)
    ensures forall k :: 0 <= k < |ws| ==> 1 <= |ws[k]| <= 70
    ensures forall k :: 0 <= k < |ws| - 1 ==> |ws[k]| == 70
  {
    seq(WindowCount(|s|), k requires 0 <= k < WindowCount(|s|) => Window(s, k))
  }

  /** `stat` succeeds on every window of `s`. */
  predicate WindowsDefined(s: string, stat: WindowStat) {
    forall k :: 0 <= k < WindowCount(|s|) ==> stat(Window(s, k)).Ok?
  }

  /** The four parallel lists gc_list_generator returns. */
  datatype Profile = Profile(positions: seq<nat>, gcs: seq<real>, gcsRandom: seq<real>, codes: seq<string>)

  /**
   * The profile as a table: for window `k`, its start `70 * k`, the
   * statistic's percentage on that window of the sequence and on the same
   * window of the shuffle, and the record's accession.
   */
  function ProfileOf(s: string, name: string, shuffled: string, stat: WindowStat): (p: Profile)
    requires |shuffled| == |s| && WindowsDefined(s, stat) && WindowsDefined(shuffled, stat)
    ensures |p.positions| == |p.gcs| == |p.gcsRandom| == |p.codes| == WindowCount(|s|)
    ensures |p.positions| > 0 ==> p.positions[0] == 0
    ensures forall k :: 0 < k < |p.positions| ==> p.positions[k] == p.positions[k - 1] + 70
    ensures forall k :: 0 <= k < |p.positions| ==> p.positions[k] < |s|
  {
    var n := WindowCount(|s|);
    Profile(seq(n, k requires 0 <= k < n => k * 70),
            seq(n, k requires 0 <= k < n => stat(Window(s, k)).value.percent),
            seq(n, k requires 0 <= k < n => stat(Window(shuffled, k)).value.percent),
            seq(n, k requires 0 <= k < n => name))
  }

  /**
   * The lists after the first `m` windows have been handled, window by
   * window; the first window on which the statistic fails ends the run with
   * its error.
   */
  function Profiled(s: string, name: string, shuffled: string, m: nat, stat: WindowStat): (r: Result<Profile, PyError>)
    requires |shuffled| == |s| && m <= WindowCount(|s|)
    ensures r.Ok? ==> |r.value.positions| == |r.value.gcs| == |r.value.gcsRandom| == |r.value.codes| == m
  {
    if m == 0 then Ok(Profile([], [], [], []))
    else
      match Profiled(s, name, shuffled, m - 1, stat)
      case Err(e) => Err(e)
      case Ok(p) =>
        var g := stat(Window(s, m - 1));
        if g.Err? then Err(g.error)
        else
          var gRandom := stat(Window(shuffled, m - 1));
          if gRandom.Err? then Err(gRandom.error)
          else Ok(Profile(p.positions + [(m - 1) * 70], p.gcs + [g.value.percent],
                          p.gcsRandom + [gRandom.value.percent], p.codes + [name]))
  }

  /** One more window of the run. */
  lemma ProfiledNext(s: string, name: string, shuffled: string, m: nat, p: Profile)
    requires |shuffled| == |s| && m < WindowCount(|s|)
    requires Profiled(s, name, shuffled, m, GcContent) == Ok(p)
    ensures GcContent(Window(s, m)).Err? ==>
              Profiled(s, name, shuffled, m + 1, GcContent) == Err(GcContent(Window(s, m)).error)
    ensures GcContent(Window(s, m)).Ok? && GcContent(Window(shuffled, m)).Err? ==>
              Profiled(s, name, shuffled, m + 1, GcContent) == Err(GcContent(Window(shuffled, m)).error)
    ensures GcContent(Window(s, m)).Ok? && GcContent(Window(shuffled, m)).Ok? ==>
              Profiled(s, name, shuffled, m + 1, GcContent)
              == Ok(Profile(p.positions + [m * 70], p.gcs + [GcContent(Window(s, m)).value.percent],
                            p.gcsRandom + [GcContent(Window(shuffled, m)).value.percent], p.codes + [name]))
  {
  }

  /**
   * One more window of gc_list_generator's loop, stated on the slices the loop
   * takes, `sequence[x:x + 70]` and `seq_random[x:x + 70]` at `x = 70 * m`:
   * when both percentages exist the run gains one row.
   */
  lemma GcStep(s: string, name: string, shuffled: string, m: nat, p: Profile, x: nat, end: nat)
    requires |shuffled| == |s| && m < WindowCount(|s|)
    requires Profiled(s, name, shuffled, m, GcContent) == Ok(p)
    requires x == m * 70 && end == if x + 70 <= |s| then x + 70 else |s|
    ensures x <= end <= |s|
    ensures GcContent(s[x..end]).Ok? && GcContent(shuffled[x..end]).Ok? ==>
              Profiled(s, name, shuffled, m + 1, GcContent)
              == Ok(Profile(p.positions + [x], p.gcs + [GcContent(s[x..end]).value.percent],
                            p.gcsRandom + [GcContent(shuffled[x..end]).value.percent], p.codes + [name]))
    ensures x + 70 < |s| ==> m + 1 < WindowCount(|s|)
    ensures x + 70 >= |s| ==> m + 1 == WindowCount(|s|)
  {
    WindowAt(s, m, x);
    WindowAt(shuffled, m, x);
    NextWindow(|s|, m + 1);
    ProfiledNext(s, name, shuffled, m, p);
  }

  /** The same step when a percentage fails: the whole run fails with that error. */
  lemma GcStepFails(s: string, name: string, shuffled: string, m: nat, p: Profile, x: nat, end: nat)
    requires |shuffled| == |s| && m < WindowCount(|s|)
    requires Profiled(s, name, shuffled, m, GcContent) == Ok(p)
    requires x == m * 70 && end == if x + 70 <= |s| then x + 70 else |s|
    ensures x <= end <= |s|
    ensures GcContent(s[x..end]).Err? ==>
              Profiled(s, name, shuffled, WindowCount(|s|), GcContent) == Err(GcContent(s[x..end]).error)
    ensures GcContent(s[x..end]).Ok? && GcContent(shuffled[x..end]).Err? ==>
              Profiled(s, name, shuffled, WindowCount(|s|), GcContent) == Err(GcContent(shuffled[x..end]).error)
  {
    WindowAt(s, m, x);
    WindowAt(shuffled, m, x);
    ProfiledNext(s, name, shuffled, m, p);
    if Profiled(s, name, shuffled, m + 1, GcContent).Err? {
      ErrorPersists(s, name, shuffled, m + 1, WindowCount(|s|), GcContent);
    }
  }

  /**
   * gc_list_generator, with the shuffled sequence (`random.shuffle` of the
   * sequence's characters, joined) given as `seqRandom`.
   */
  method GcListGenerator(sequence: string, sequenceName: string, seqRandom: string) returns (r: Result<Profile, PyError>)
    requires multiset(seqRandom) == multiset(sequence)
    ensures |seqRandom| == |sequence|
    ensures r == Profiled(sequence, sequenceName, seqRandom, WindowCount(|sequence|), GcContent)
  {
    assert |seqRandom| == |multiset(seqRandom)| == |sequence|;
    var positionList: seq<nat> := [];
    var gcList: seq<real> := [];
    var gcListRandom: seq<real> := [];
    var codeList: seq<string> := [];
    var x := 0;
    while x < |sequence|
      invariant x == |positionList| * 70
      invariant x < |sequence| ==> |positionList| < WindowCount(|sequence|)
      invariant x >= |sequence| ==> |positionList| == WindowCount(|sequence|)
      invariant Profiled(sequence, sequenceName, seqRandom, |positionList|, GcContent)
                == Ok(Profile(positionList, gcList, gcListRandom, codeList))
    {
      var end := if x + 70 <= |sequence| then x + 70 else |sequence|;
      ghost var p := Profile(positionList, gcList, gcListRandom, codeList);
      GcStep(sequence, sequenceName, seqRandom, |positionList|, p, x, end);
      GcStepFails(sequence, sequenceName, seqRandom, |positionList|, p, x, end);
      var temp := sequence[x..end];
      var temp2 := seqRandom[x..end];
      var gcTemp := GcContent(temp);
      if gcTemp.Err? {
        return Err(gcTemp.error);
      }
      var gcTemp2 := GcContent(temp2);
      if gcTemp2.Err? {
        return Err(gcTemp2.error);
      }
      positionList := positionList + [x];
      gcList := gcList + [gcTemp.value.percent];
      gcListRandom := gcListRandom + [gcTemp2.value.percent];
      codeList := codeList + [sequenceName];
      x := x + 70;
    }
    r := Ok(Profile(positionList, gcList, gcListRandom, codeList));
  }

  // ---------------------------------------------------------------------------
  // What the window-by-window run computes
  // ---------------------------------------------------------------------------

  /** Once a window fails, the run stays failed with the same error. */
  lemma {:induction false} ErrorPersists(s: string, name: string, shuffled: string, m: nat, n: nat, stat: WindowStat)
    requires |shuffled| == |s| && m <= n <= WindowCount(|s|)
    requires Profiled(s, name, shuffled, m, stat).Err?
    ensures Profiled(s, name, shuffled, n, stat) == Profiled(s, name, shuffled, m, stat)
    decreases n - m
  {
    if m < n {
      ErrorPersists(s, name, shuffled, m, n - 1, stat);
    }
  }

  /** The run's error is one the statistic raised on some window. */
  lemma {:induction false} ProfiledError(s: string, name: string, shuffled: string, m: nat, stat: WindowStat)
    requires |shuffled| == |s| && m <= WindowCount(|s|)
    ensures Profiled(s, name, shuffled, m, stat).Err? ==>
              exists k :: 0 <= k < m &&
                ((stat(Window(s, k)).Err? && Profiled(s, name, shuffled, m, stat).error == stat(Window(s, k)).error) ||
                 (stat(Window(shuffled, k)).Err? && Profiled(s, name, shuffled, m, stat).error == stat(Window(shuffled, k)).error))
  {
    if m > 0 {
      ProfiledError(s, name, shuffled, m - 1, stat);
    }
  }

  /** The run succeeds exactly when the statistic succeeds on the first `m` windows of both strings. */
  lemma {:induction false} ProfiledSucceeds(s: string, name: string, shuffled: string, m: nat, stat: WindowStat)
    requires |shuffled| == |s| && m <= WindowCount(|s|)
    ensures Profiled(s, name, shuffled, m, stat).Ok? <==>
              forall k :: 0 <= k < m ==> stat(Window(s, k)).Ok? && stat(Window(shuffled, k)).Ok?
  {
    if m > 0 {
      ProfiledSucceeds(s, name, shuffled, m - 1, stat);
    }
  }

  /**
   * After `m` windows, row `k` holds window `k`'s start, the statistic's two
   * percentages and the accession.
   */
  lemma {:induction false} ProfiledRows(s: string, name: string, shuffled: string, m: nat, stat: WindowStat)
    requires |shuffled| == |s| && m <= WindowCount(|s|)
    ensures Profiled(s, name, shuffled, m, stat).Ok? ==>
              var p := Profiled(s, name, shuffled, m, stat).value;
              |p.positions| == |p.gcs| == |p.gcsRandom| == |p.codes| == m &&
              forall k :: 0 <= k < m ==>
                stat(Window(s, k)).Ok? && stat(Window(shuffled, k)).Ok? &&
                p.positions[k] == k * 70 && p.codes[k] == name &&
                p.gcs[k] == stat(Window(s, k)).value.percent &&
                p.gcsRandom[k] == stat(Window(shuffled, k)).value.percent
  {
    if m > 0 {
      ProfiledRows(s, name, shuffled, m - 1, stat);
    }
  }

  /**
   * gc_list_generator's result: an error exactly when the statistic fails on
   * some window of the sequence or of the shuffle, and otherwise the
   * profile table.
   */
  lemma GcListsMeaning(s: string, name: string, shuffled: string, stat: WindowStat)
    requires |shuffled| == |s|
    ensures Profiled(s, name, shuffled, WindowCount(|s|), stat).Err? <==>
              !(WindowsDefined(s, stat) && WindowsDefined(shuffled, stat))
    ensures Profiled(s, name, shuffled, WindowCount(|s|), stat).Ok? ==>
              Profiled(s, name, shuffled, WindowCount(|s|), stat).value == ProfileOf(s, name, shuffled, stat)
  {
    ProfiledSucceeds(s, name, shuffled, WindowCount(|s|), stat);
    ProfiledRows(s, name, shuffled, WindowCount(|s|), stat);
  }

  /** With gc_content the only error is ZeroDivisionError. */
  lemma GcListsError(s: string, name: string, shuffled: string)
    requires |shuffled| == |s|
    ensures Profiled(s, name, shuffled, WindowCount(|s|), GcContent).Err? ==>
              Profiled(s, name, shuffled, WindowCount(|s|), GcContent).error == ZeroDivisionError
  {
    ProfiledError(s, name, shuffled, WindowCount(|s|), GcContent);
  }

  /** An empty sequence gives four empty lists. */
  lemma EmptySequenceProfile(name: string, stat: WindowStat)
    ensures Profiled("", name, "", WindowCount(0), stat) == Ok(Profile([], [], [], []))
  {
  }

  // ---------------------------------------------------------------------------
  // Properties of the windowing
  // ---------------------------------------------------------------------------

  /** The strings of `ws` concatenated in order. */
  function Join(ws: seq<string>): string {
    if ws == [] then "" else Join(ws[..|ws| - 1]) + ws[|ws| - 1]
  }

  /** The first `m` windows concatenate to the prefix of `s` they cover. */
  lemma {:induction false} JoinFirstWindows(s: string, m: nat)
    requires m <= WindowCount(|s|)
    ensures m * 70 <= |s| ==> Join(Windows(s)[..m]) == s[..m * 70]
    ensures m * 70 > |s| ==> Join(Windows(s)[..m]) == s
  {
    if m > 0 {
      JoinFirstWindows(s, m - 1);
      assert Windows(s)[..m][..m - 1] == Windows(s)[..m - 1];
      var start := (m - 1) * 70;
      assert Join(Windows(s)[..m]) == Join(Windows(s)[..m - 1]) + Window(s, m - 1);
      assert Join(Windows(s)[..m - 1]) == s[..start];
      if m * 70 <= |s| {
        assert s[..start] + s[start..start + 70] == s[..m * 70];
      } else {
        assert s[..start] + s[start..] == s;
      }
    }
  }

  /** The windows concatenate back to the whole sequence. */
  lemma WindowsCoverSequence(s: string)
    ensures Join(Windows(s)) == s
  {
    var n := WindowCount(|s|);
    JoinFirstWindows(s, n);
    assert Windows(s)[..n] == Windows(s);
    if n * 70 <= |s| {
      assert s[..n * 70] == s;
    }
  }

  /** Total G/C count over a list of fragments. */
  function SumGc(ws: seq<string>): nat {
    if ws == [] then 0 else SumGc(ws[..|ws| - 1]) + GcBases(ws[|ws| - 1])
  }

  /** The total over fragments is the count of their concatenation. */
  lemma {:induction false} SumGcIsJoinGc(ws: seq<string>)
    ensures SumGc(ws) == GcBases(Join(ws))
  {
    if ws != [] {
      SumGcIsJoinGc(ws[..|ws| - 1]);
      GcBasesConcat(Join(ws[..|ws| - 1]), ws[|ws| - 1]);
    }
  }

  /**
   * The shuffle only moves bases around: the G/C count summed over the
   * shuffle's windows equals that summed over the sequence's windows.
   */
  lemma RandomGcConserved(s: string, shuffled: string)
    requires multiset(shuffled) == multiset(s)
    ensures SumGc(Windows(shuffled)) == SumGc(Windows(s)) == GcBases(s)
  {
    SumGcIsJoinGc(Windows(s));
    SumGcIsJoinGc(Windows(shuffled));
    WindowsCoverSequence(s);
    WindowsCoverSequence(shuffled);
    PermutationKeepsGcBases(s, shuffled);
  }

  /**
   * Without line feeds in the sequence, no window of it or of a shuffle of
   * it makes gc_content divide by zero, and each window's length is kept.
   */
  lemma NoNewlineWindowsDefined(s: string, shuffled: string)
    requires '\n' !in s && multiset(shuffled) == multiset(s)
    ensures WindowsDefined(s, GcContent) && WindowsDefined(shuffled, GcContent)
  {
    assert '\n' !in shuffled by {
      assert multiset(shuffled)['\n'] == 0;
    }
    assert |shuffled| == |multiset(shuffled)| == |s|;
    forall k | 0 <= k < WindowCount(|s|)
      ensures GcContent(Window(s, k)).Ok? && GcContent(Window(shuffled, k)).Ok?
    {
      var w, w2 := Window(s, k), Window(shuffled, k);
      assert w[|w| - 1] in s && w2[|w2| - 1] in shuffled;
      NoTrailingNewlineIsDefined(w);
      NoTrailingNewlineIsDefined(w2);
    }

  }
}
