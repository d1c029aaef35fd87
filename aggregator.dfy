/**
 * The row-level skeleton of `df_creator`: read every file, keep the records
 * that have both an accession and a sequence, profile each kept record, take
 * the minimum length and explode the per-record window lists into one row per
 * window.
 *
 * As in the Profiler module, the specification functions take the
 * statistic `stat` as a parameter; df_creator uses `GcContent`.
 */
module Aggregator {
  import opened Wrappers
  import opened PyStr
  import opened GcStats
  import opened Extractor
  import opened Profiler

  // ---------------------------------------------------------------------------
  // Records that pass the filter
  // ---------------------------------------------------------------------------

  /** The accession and sequence read from one file. */
  datatype Record = Record(code: string, sequence: string)

  /**
   * The records of `files`, in file order: one per file whose read passes
   * the filter `if sequence_name and sequence`, that is a name that is set
   * and non-empty and a non-empty sequence.
   */
  function Records(files: seq<seq<string>>, gene: string): (recs: seq<Record>)
    ensures |recs| <= |files|
  {
    if files == [] then []
    else
      var st := Read(files[|files| - 1], GeneTest(gene));
      Records(files[..|files| - 1], gene)
        + (if st.name.Some? && st.name.value != [] && st.sequence != [] then [Record(st.name.value, st.sequence)] else [])
  }

  /** Reading a list of files one after another: the records of a concatenation are the concatenation of the records. */
  lemma {:induction false} RecordsAppend(a: seq<seq<string>>, b: seq<seq<string>>, gene: string)
    ensures Records(a + b, gene) == Records(a, gene) + Records(b, gene)
    decreases |b|
  {
    if b == [] {
      assert a + b == a;
    } else {
      var b0 := b[..|b| - 1];
      RecordsAppend(a, b0, gene);
      assert (a + b)[..|a + b| - 1] == a + b0;
      assert (a + b)[|a + b| - 1] == b[|b| - 1];
    }
  }

  /** One file contributes exactly its own record when its read passes the filter, and nothing otherwise. */
  lemma RecordOfFile(lines: seq<string>, gene: string)
    ensures var st := Read(lines, GeneTest(gene));
            Records([lines], gene)
            == if st.name.Some? && st.name.value != [] && st.sequence != [] then [Record(st.name.value, st.sequence)] else []
  {
    assert [lines][..0] == [];
  }

  /**
   * Every kept record has a non-empty accession and a non-empty sequence
   * that does not end in whitespace, and holds no line feed when its file
   * consists of proper lines.
   */
  lemma {:induction false} RecordsShape(files: seq<seq<string>>, gene: string)
    ensures forall k :: 0 <= k < |Records(files, gene)| ==>
              var rec := Records(files, gene)[k];
              rec.code != [] && rec.sequence != [] && !IsSpace(rec.sequence[|rec.sequence| - 1])
    ensures (forall i :: 0 <= i < |files| ==> AllLines(files[i])) ==>
              forall k :: 0 <= k < |Records(files, gene)| ==> '\n' !in Records(files, gene)[k].sequence
  {
    if files != [] {
      var init := files[..|files| - 1];
      RecordsShape(init, gene);
      ReadResultShape(files[|files| - 1], GeneTest(gene));
      assert forall i :: 0 <= i < |init| ==> init[i] == files[i];
    }
  }

  // ---------------------------------------------------------------------------
  // The three tables built in the loop
  // ---------------------------------------------------------------------------

  /** A row of `df_sequences`. */
  datatype SequenceRow = SequenceRow(code: string, sequence: string, length: nat)

  /** A row of `df_gc_content`. */
  datatype GcRow = GcRow(code: string, gcPercent: real, length: nat)

  /** The three tables after some records; a row of `df_gc_content_lists` is the record's `Profile`. */
  datatype Acc = Acc(sequences: seq<SequenceRow>, gcContent: seq<GcRow>, lists: seq<Profile>)

  /** The `k`-th kept record's shuffle is `shuffle(k, sequence)`; it must be a permutation. */
  type Shuffler = (nat, string) -> string

  ghost predicate Permutes(shuffle: Shuffler) {
    forall k: nat, t: string :: multiset(shuffle(k, t)) == multiset(t)
  }

  lemma PermutesLength(shuffle: Shuffler, k: nat, t: string)
    requires Permutes(shuffle)
    ensures |shuffle(k, t)| == |t|
  {
    assert |multiset(shuffle(k, t))| == |multiset(t)|;
  }

  /** The profile gc_list_generator computes for a record. */
  function RecordProfile(rec: Record, k: nat, shuffle: Shuffler, stat: WindowStat): (r: Result<Profile, PyError>)
    requires Permutes(shuffle)
    ensures r.Ok? ==> Rectangular(r.value) && |r.value.codes| == WindowCount(|rec.sequence|)
  {
    PermutesLength(shuffle, k, rec.sequence);
    var shuffled := shuffle(k, rec.sequence);
    Profiled(rec.sequence, rec.code, shuffled, WindowCount(|rec.sequence|), stat)
  }

  /**
   * The tables after the records `recs`, one record at a time: the
   * statistic of the whole sequence, then its profile; the first error ends
   * the run.
   */
  function Collect(recs: seq<Record>, shuffle: Shuffler, stat: WindowStat): (r: Result<Acc, PyError>)
    requires Permutes(shuffle)
    ensures r.Ok? ==> |r.value.sequences| == |r.value.gcContent| == |r.value.lists| == |recs|
    ensures r.Ok? ==> AllRectangular(r.value.lists)
  {
    if recs == [] then Ok(Acc([], [], []))
    else
      match Collect(recs[..|recs| - 1], shuffle, stat)
      case Err(e) => Err(e)
      case Ok(acc) =>
        var rec := recs[|recs| - 1];
        var g := stat(rec.sequence);
        if g.Err? then Err(g.error)
        else
          var p := RecordProfile(rec, |recs| - 1, shuffle, stat);
          if p.Err? then Err(p.error)
          else Ok(Acc(acc.sequences + [SequenceRow(rec.code, rec.sequence, g.value.length)],
                      acc.gcContent + [GcRow(rec.code, g.value.percent, g.value.length)],
                      acc.lists + [p.value]))
  }

  // ---------------------------------------------------------------------------
  // Minimum length and explode
  // ---------------------------------------------------------------------------

  /** `min(df_sequences['Length'])`: a ValueError on an empty column. */
  function MinLength(rows: seq<SequenceRow>): (r: Result<nat, PyError>)
    ensures r.Err? <==> rows == []
    ensures r.Err? ==> r.error == ValueError
    ensures r.Ok? ==> (forall i :: 0 <= i < |rows| ==> r.value <= rows[i].length)
                      && exists i :: 0 <= i < |rows| && r.value == rows[i].length
  {
    if rows == [] then Err(ValueError)
    else
      var last := rows[|rows| - 1].length;
      match MinLength(rows[..|rows| - 1])
      case Err(_) => Ok(last)
      case Ok(m) =>
        var init := rows[..|rows| - 1];
        assert forall i :: 0 <= i < |init| ==> init[i] == rows[i];
        Ok(if m <= last then m else last)
  }

  /** A row of the exploded table: one window of one record. */
  datatype WindowRow = WindowRow(code: string, gcPercent: real, gcPercentRandom: real, position: nat)

  /** The four lists of a row have the same length, as explode requires. */
  predicate Rectangular(p: Profile) {
    |p.gcs| == |p.codes| && |p.gcsRandom| == |p.codes| && |p.positions| == |p.codes|
  }

  /** Every row of `df_gc_content_lists` is rectangular. */
  predicate AllRectangular(lists: seq<Profile>) {
    forall i :: 0 <= i < |lists| ==> Rectangular(lists[i])
  }

  /** The rows one list row explodes into: one per window (their contents are stated by `ExplodeAt`). */
  function ExplodeRow(p: Profile): (rows: seq<WindowRow>)
    requires Rectangular(p)
    ensures |rows| == |p.codes|
  {
    seq(|p.codes|, k requires 0 <= k < |p.codes| => WindowRow(p.codes[k], p.gcs[k], p.gcsRandom[k], p.positions[k]))
  }

  /** `explode` on the four list columns: each row's lists become that many rows, in order. */
  function Explode(lists: seq<Profile>): (rows: seq<WindowRow>)
    requires AllRectangular(lists)
    ensures |rows| == Offset(lists, |lists|)
  {
    if lists == [] then []
    else
      OffsetPrefix(lists, |lists| - 1);
      Explode(lists[..|lists| - 1]) + ExplodeRow(lists[|lists| - 1])
  }

  /** Number of windows in the first `i` list rows: where the rows of list row `i` start in the exploded table. */
  function Offset(lists: seq<Profile>, i: nat): nat
    requires i <= |lists|
  {
    if i == 0 then 0 else Offset(lists, i - 1) + |lists[i - 1].codes|
  }

  /**
   * The exploded table has one row per window; the rows of list row `i`
   * come after those of the rows before it, and window `k` of list row `i`
   * is row `Offset(lists, i) + k`.
   */
  lemma {:induction false} ExplodeAt(lists: seq<Profile>, i: nat, k: nat)
    requires AllRectangular(lists) && i < |lists| && k < |lists[i].codes|
    ensures |Explode(lists)| == Offset(lists, |lists|)
    ensures Offset(lists, i) + k < |Explode(lists)|
    ensures Explode(lists)[Offset(lists, i) + k]
            == WindowRow(lists[i].codes[k], lists[i].gcs[k], lists[i].gcsRandom[k], lists[i].positions[k])
  {
    var init := lists[..|lists| - 1];
    assert AllRectangular(init);
    OffsetPrefix(lists, |lists| - 1);
    if i < |lists| - 1 {
      ExplodeAt(init, i, k);
      assert init[..i] == lists[..i];
      OffsetSame(init, lists, i);
      assert init[i] == lists[i];
      assert Explode(lists) == Explode(init) + ExplodeRow(lists[|lists| - 1]);
    }
  }

  /** Offsets only look at the rows before them. */
  lemma {:induction false} OffsetPrefix(lists: seq<Profile>, i: nat)
    requires i <= |lists|
    ensures Offset(lists[..i], i) == Offset(lists, i)
  {
    if i > 0 {
      OffsetPrefix(lists, i - 1);
      OffsetSame(lists[..i], lists, i - 1);
    }
  }

  lemma {:induction false} OffsetSame(a: seq<Profile>, b: seq<Profile>, i: nat)
    requires i <= |a| && i <= |b| && a[..i] == b[..i]
    ensures Offset(a, i) == Offset(b, i)
  {
    if i > 0 {
      assert a[i - 1] == a[..i][i - 1] == b[..i][i - 1] == b[i - 1];
      assert a[..i - 1] == a[..i][..i - 1];
      assert b[..i - 1] == b[..i][..i - 1];
      OffsetSame(a, b, i - 1);
    }
  }

  /** Exploding two tables one after the other is exploding their concatenation. */
  lemma {:induction false} ExplodeAppend(a: seq<Profile>, b: seq<Profile>)
    requires AllRectangular(a) && AllRectangular(b)
    ensures AllRectangular(a + b)
    ensures Explode(a + b) == Explode(a) + Explode(b)
    decreases |b|
  {
    assert forall i :: 0 <= i < |a + b| ==> (a + b)[i] == if i < |a| then a[i] else b[i - |a|];
    if b == [] {
      assert a + b == a;
    } else {
      var b0, last := b[..|b| - 1], b[|b| - 1];
      assert AllRectangular(b0);
      ExplodeAppend(a, b0);
      var ab := a + b;
      assert ab == (a + b0) + [last];
      assert ab[..|ab| - 1] == a + b0;
      calc {
        Explode(ab);
        Explode(a + b0) + ExplodeRow(last);
        Explode(a) + Explode(b0) + ExplodeRow(last);
        Explode(a) + (Explode(b0) + ExplodeRow(last));
      }
    }
  }

  // ---------------------------------------------------------------------------
  // df_creator
  // ---------------------------------------------------------------------------

  /** The tables df_creator returns (up to the pandas-only steps). */
  datatype Tables = Tables(sequences: seq<SequenceRow>, length: nat, gcContent: seq<GcRow>,
                           lists: seq<Profile>, exploded: seq<WindowRow>)

  /**
   * df_creator's result for the kept records `recs`: a result has one row
   * per record, a `length` no greater than any row's, and one exploded row
   * per window.
   */
  function Tabulate(recs: seq<Record>, shuffle: Shuffler, stat: WindowStat): (r: Result<Tables, PyError>)
    requires Permutes(shuffle)
    ensures r.Ok? ==> recs != [] && |r.value.sequences| == |r.value.gcContent| == |r.value.lists| == |recs|
    ensures r.Ok? ==> forall k :: 0 <= k < |recs| ==> r.value.length <= r.value.sequences[k].length
    ensures r.Ok? ==> |r.value.exploded| == Offset(r.value.lists, |recs|)
  {
    match Collect(recs, shuffle, stat)
    case Err(e) => Err(e)
    case Ok(acc) =>
      match MinLength(acc.sequences)
      case Err(e) => Err(e)
      case Ok(length) =>
        Ok(Tables(acc.sequences, length, acc.gcContent, acc.lists, Explode(acc.lists)))
  }

  /** One more kept record in df_creator's loop. */
  lemma CollectStep(recs: seq<Record>, rec: Record, shuffle: Shuffler, acc: Acc)
    requires Permutes(shuffle) && Collect(recs, shuffle, GcContent) == Ok(acc)
    ensures |shuffle(|recs|, rec.sequence)| == |rec.sequence|
    ensures GcContent(rec.sequence).Err? ==>
              Collect(recs + [rec], shuffle, GcContent) == Err(GcContent(rec.sequence).error)
    ensures GcContent(rec.sequence).Ok? &&
            Profiled(rec.sequence, rec.code, shuffle(|recs|, rec.sequence), WindowCount(|rec.sequence|), GcContent).Err? ==>
              Collect(recs + [rec], shuffle, GcContent)
              == Err(Profiled(rec.sequence, rec.code, shuffle(|recs|, rec.sequence), WindowCount(|rec.sequence|), GcContent).error)
    ensures GcContent(rec.sequence).Ok? &&
            Profiled(rec.sequence, rec.code, shuffle(|recs|, rec.sequence), WindowCount(|rec.sequence|), GcContent).Ok? ==>
              Collect(recs + [rec], shuffle, GcContent)
              == Ok(Acc(acc.sequences + [SequenceRow(rec.code, rec.sequence, GcContent(rec.sequence).value.length)],
                        acc.gcContent + [GcRow(rec.code, GcContent(rec.sequence).value.percent, GcContent(rec.sequence).value.length)],
                        acc.lists + [Profiled(rec.sequence, rec.code, shuffle(|recs|, rec.sequence),
                                              WindowCount(|rec.sequence|), GcContent).value]))
  {
    PermutesLength(shuffle, |recs|, rec.sequence);
    assert (recs + [rec])[..|recs|] == recs;
  }

  /** Once a record fails, the run stays failed with the same error. */
  lemma {:induction false} CollectErrorPersists(a: seq<Record>, b: seq<Record>, shuffle: Shuffler, stat: WindowStat)
    requires Permutes(shuffle) && Collect(a, shuffle, stat).Err?
    ensures Collect(a + b, shuffle, stat) == Collect(a, shuffle, stat)
    decreases |b|
  {
    if b == [] {
      assert a + b == a;
    } else {
      CollectErrorPersists(a, b[..|b| - 1], shuffle, stat);
      assert (a + b)[..|a + b| - 1] == a + b[..|b| - 1];
    }
  }

  /**
   * df_creator over files given as lists of lines, with the `k`-th kept
   * record's shuffle supplied as `shuffle(k, sequence)`.
   */
  method DfCreator(files: seq<seq<string>>, geneName: string, shuffle: Shuffler) returns (r: Result<Tables, PyError>)
    requires Permutes(shuffle)
    ensures r == Tabulate(Records(files, geneName), shuffle, GcContent)
  {
    var dfSequences: seq<SequenceRow> := [];
    var dfGcContent: seq<GcRow> := [];
    var dfGcContentLists: seq<Profile> := [];
    for i := 0 to |files|
      invariant |dfSequences| == |Records(files[..i], geneName)|
      invariant Collect(Records(files[..i], geneName), shuffle, GcContent)
                == Ok(Acc(dfSequences, dfGcContent, dfGcContentLists))
    {
      ghost var recs := Records(files[..i], geneName);
      assert files[..i + 1][..i] == files[..i];
      RecordsAppend(files[..i + 1], files[i + 1..], geneName);
      assert files[..i + 1] + files[i + 1..] == files;
      var sequenceName, sequence := SequenceReader(files[i], geneName);
      if sequenceName.Some? && sequenceName.value != [] && sequence != [] {
        var rec := Record(sequenceName.value, sequence);
        assert Records(files[..i + 1], geneName) == recs + [rec];
        CollectStep(recs, rec, shuffle, Acc(dfSequences, dfGcContent, dfGcContentLists));
        var stat := GcContent(sequence);
        if stat.Err? {
          CollectErrorPersists(recs + [rec], Records(files[i + 1..], geneName), shuffle, GcContent);
          return Err(stat.error);
        }
        var profile := GcListGenerator(sequence, sequenceName.value, shuffle(|dfSequences|, sequence));
        if profile.Err? {
          CollectErrorPersists(recs + [rec], Records(files[i + 1..], geneName), shuffle, GcContent);
          return Err(profile.error);
        }
        dfSequences := dfSequences + [SequenceRow(sequenceName.value, sequence, stat.value.length)];
        dfGcContent := dfGcContent + [GcRow(sequenceName.value, stat.value.percent, stat.value.length)];
        dfGcContentLists := dfGcContentLists + [profile.value];
      } else {
        assert Records(files[..i + 1], geneName) == recs;
      }
    }
    assert files[..|files|] == files;
    var length := MinLength(dfSequences);
    if length.Err? {
      return Err(length.error);
    }
    r := Ok(Tables(dfSequences, length.value, dfGcContent, dfGcContentLists, Explode(dfGcContentLists)));
  }

  // ---------------------------------------------------------------------------
  // What df_creator computes
  // ---------------------------------------------------------------------------

  /**
   * The loop gets through the records `recs` exactly when, for each of them,
   * the statistic of the whole sequence and its profile both succeed.
   */
  lemma {:induction false} CollectSucceeds(recs: seq<Record>, shuffle: Shuffler, stat: WindowStat)
    requires Permutes(shuffle)
    ensures Collect(recs, shuffle, stat).Ok? <==>
              forall k :: 0 <= k < |recs| ==>
                stat(recs[k].sequence).Ok? && RecordProfile(recs[k], k, shuffle, stat).Ok?
  {
    if recs != [] {
      var init := recs[..|recs| - 1];
      CollectSucceeds(init, shuffle, stat);
      assert forall k :: 0 <= k < |init| ==> init[k] == recs[k];
    }
  }

  /**
   * When the loop gets through, row `k` of each table describes record `k`:
   * its accession, its sequence, the statistic's length and percentage for
   * the whole sequence, and its profile.
   */
  lemma {:induction false} CollectRows(recs: seq<Record>, shuffle: Shuffler, stat: WindowStat)
    requires Permutes(shuffle)
    ensures Collect(recs, shuffle, stat).Ok? ==>
              var acc := Collect(recs, shuffle, stat).value;
              |acc.sequences| == |acc.gcContent| == |acc.lists| == |recs| &&
              forall k :: 0 <= k < |recs| ==>
                stat(recs[k].sequence).Ok? && RecordProfile(recs[k], k, shuffle, stat).Ok? &&
                acc.sequences[k] == SequenceRow(recs[k].code, recs[k].sequence, stat(recs[k].sequence).value.length) &&
                acc.gcContent[k] == GcRow(recs[k].code, stat(recs[k].sequence).value.percent,
                                          stat(recs[k].sequence).value.length) &&
                acc.lists[k] == RecordProfile(recs[k], k, shuffle, stat).value
  {
    if recs != [] {
      var init := recs[..|recs| - 1];
      CollectRows(init, shuffle, stat);
      assert forall k :: 0 <= k < |init| ==> init[k] == recs[k];
    }
  }

  /** A failed loop reports the error of the first record whose statistic or profile fails. */
  lemma {:induction false} CollectError(recs: seq<Record>, shuffle: Shuffler, stat: WindowStat)
    requires Permutes(shuffle)
    ensures Collect(recs, shuffle, stat).Err? ==>
              exists k :: 0 <= k < |recs| &&
                ((stat(recs[k].sequence).Err? && Collect(recs, shuffle, stat).error == stat(recs[k].sequence).error) ||
                 (RecordProfile(recs[k], k, shuffle, stat).Err? &&
                  Collect(recs, shuffle, stat).error == RecordProfile(recs[k], k, shuffle, stat).error))
  {
    if recs != [] {
      var init := recs[..|recs| - 1];
      CollectError(init, shuffle, stat);
      assert forall k :: 0 <= k < |init| ==> init[k] == recs[k];
    }
  }

  /**
   * df_creator's result: the loop's error if a record fails; otherwise a
   * ValueError exactly when no record was kept, and else the loop's tables
   * with `length` the least length among their rows (read together with
   * `CollectRows`, the least length among the records).
   */
  lemma TabulateMeaning(recs: seq<Record>, shuffle: Shuffler, stat: WindowStat)
    requires Permutes(shuffle)
    ensures Collect(recs, shuffle, stat).Err? ==> Tabulate(recs, shuffle, stat) == Err(Collect(recs, shuffle, stat).error)
    ensures Collect(recs, shuffle, stat).Ok? ==>
              (Tabulate(recs, shuffle, stat).Err? <==> recs == []) &&
              (recs == [] ==> Tabulate(recs, shuffle, stat) == Err(ValueError))
    ensures Tabulate(recs, shuffle, stat).Ok? ==>
              var t := Tabulate(recs, shuffle, stat).value;
              var acc := Collect(recs, shuffle, stat).value;
              t.sequences == acc.sequences && t.gcContent == acc.gcContent && t.lists == acc.lists &&
              AllRectangular(t.lists) && t.exploded == Explode(t.lists) &&
              (forall k :: 0 <= k < |t.sequences| ==> t.length <= t.sequences[k].length) &&
              (exists k :: 0 <= k < |t.sequences| && t.length == t.sequences[k].length)
  {
    match Collect(recs, shuffle, stat)
    case Err(_) =>
    case Ok(acc) =>
  }

  /** A kept record of proper lines gets through the loop, and its length is that of its sequence. */
  lemma RecordDefined(rec: Record, k: nat, shuffle: Shuffler)
    requires Permutes(shuffle)
    requires rec.sequence != [] && '\n' !in rec.sequence
    ensures GcContent(rec.sequence).Ok? && GcContent(rec.sequence).value.length == |rec.sequence|
    ensures RecordProfile(rec, k, shuffle, GcContent).Ok?
  {
    var t := rec.sequence;
    assert t[|t| - 1] in t;
    NoTrailingNewlineIsDefined(t);
    PermutesLength(shuffle, k, t);
    NoNewlineWindowsDefined(t, shuffle(k, t));
    GcListsMeaning(t, rec.code, shuffle(k, t), GcContent);
  }

  /**
   * Records with non-empty sequences free of line feeds never make
   * gc_content divide by zero: df_creator then fails only with the
   * ValueError of `min` when there is no record, and otherwise each
   * record's length is the length of its sequence.
   */
  lemma WellFormedRecords(recs: seq<Record>, shuffle: Shuffler)
    requires Permutes(shuffle)
    requires forall k :: 0 <= k < |recs| ==> recs[k].sequence != [] && '\n' !in recs[k].sequence
    ensures Tabulate(recs, shuffle, GcContent).Err? <==> recs == []
    ensures Tabulate(recs, shuffle, GcContent).Err? ==> Tabulate(recs, shuffle, GcContent).error == ValueError
    ensures Tabulate(recs, shuffle, GcContent).Ok? ==>
              var t := Tabulate(recs, shuffle, GcContent).value;
              |t.sequences| == |recs| &&
              forall k :: 0 <= k < |recs| ==> t.sequences[k].length == |recs[k].sequence|
  {
    forall k | 0 <= k < |recs|
      ensures GcContent(recs[k].sequence).Ok? && GcContent(recs[k].sequence).value.length == |recs[k].sequence|
      ensures RecordProfile(recs[k], k, shuffle, GcContent).Ok?
    {
      RecordDefined(recs[k], k, shuffle);
    }
    CollectSucceeds(recs, shuffle, GcContent);
    match Collect(recs, shuffle, GcContent)
    case Err(_) => assert false;
    case Ok(acc) =>
      if recs != [] {
        CollectRows(recs, shuffle, GcContent);
        assert forall k :: 0 <= k < |recs| ==> acc.sequences[k].length == |recs[k].sequence|;
      }
  }

  /**
   * The same for files made of proper lines, whatever the gene: the records
   * the filter keeps always satisfy `WellFormedRecords`.
   */
  lemma WellFormedFiles(files: seq<seq<string>>, gene: string, shuffle: Shuffler)
    requires Permutes(shuffle)
    requires forall i :: 0 <= i < |files| ==> AllLines(files[i])
    ensures Tabulate(Records(files, gene), shuffle, GcContent).Err? <==> Records(files, gene) == []
    ensures Tabulate(Records(files, gene), shuffle, GcContent).Err? ==>
              Tabulate(Records(files, gene), shuffle, GcContent).error == ValueError
  {
    RecordsShape(files, gene);
    WellFormedRecords(Records(files, gene), shuffle);
  }
}
