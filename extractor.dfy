/**
 * `sequence_reader`: scans the lines of a FASTA-like record file, switches an
 * include flag at every header line (one starting with '>') according to
 * whether the gene tag occurs in it, accumulates the stripped body lines while
 * the flag is on, and takes the accession from matching headers with the
 * regular expression `\|(.+?)\_`.
 */
module Extractor {
  import opened Wrappers
  import opened PyStr

  // ---------------------------------------------------------------------------
  // The accession pattern `\|(.+?)\_` under `re.search`
  // ---------------------------------------------------------------------------

  /**
   * The pattern matches at index `p` of `h` with a group of `k` characters:
   * a '|' at `p`, then `k >= 1` characters none of which is a line feed
   * (what `.` accepts), then a '_'.
   */
  predicate AccessionMatch(h: string, p: nat, k: nat) {
    1 <= k && p + k + 1 < |h| && h[p] == '|' && h[p + k + 1] == '_'
    && forall j :: p + 1 <= j <= p + k ==> h[j] != '\n'
  }

  /** The match `re.search` reports: leftmost start, then the shortest group (the lazy `+?`). */
  ghost predicate FirstMatch(h: string, p: nat, k: nat) {
    AccessionMatch(h, p, k)
    && (forall q: nat, m: nat :: q < p ==> !AccessionMatch(h, q, m))
    && (forall m: nat :: m < k ==> !AccessionMatch(h, p, m))
  }

  /** Lazy expansion of `(.+?)` after the '|' at `p`, trying group lengths `k`, `k + 1`, ... */
  function LazyGroup(h: string, p: nat, k: nat): (r: Option<nat>)
    requires p < |h| && h[p] == '|' && 1 <= k
    requires forall j :: p + 1 <= j < p + k ==> j < |h| && h[j] != '\n'
    decreases |h| - k
    ensures r.Some? ==> k <= r.value && AccessionMatch(h, p, r.value)
                        && forall m: nat :: k <= m < r.value ==> !AccessionMatch(h, p, m)
    ensures r.None? ==> forall m: nat :: k <= m ==> !AccessionMatch(h, p, m)
  {
    if p + k + 1 >= |h| then None
    else if h[p + k] == '\n' then None
    else if h[p + k + 1] == '_' then Some(k)
    else LazyGroup(h, p, k + 1)
  }

  /** Start positions `p`, `p + 1`, ... tried in turn, as `re.search` does. */
  function SearchFrom(h: string, p: nat): (r: Option<(nat, nat)>)
    decreases |h| - p
    ensures r.Some? ==> p <= r.value.0 && AccessionMatch(h, r.value.0, r.value.1)
                        && (forall q: nat, m: nat :: p <= q < r.value.0 ==> !AccessionMatch(h, q, m))
                        && (forall m: nat :: m < r.value.1 ==> !AccessionMatch(h, r.value.0, m))
    ensures r.None? ==> forall q: nat, m: nat :: p <= q ==> !AccessionMatch(h, q, m)
  {
    if p >= |h| then None
    else if h[p] == '|' then
      match LazyGroup(h, p, 1)
      case Some(k) => Some((p, k))
      case None => SearchFrom(h, p + 1)
    else SearchFrom(h, p + 1)
  }

  /** `re.search(r'\|(.+?)\_', header).group(1)`, or None when there is no match. */
  function Accession(header: string): (r: Option<string>)
    ensures r.None? <==> forall p: nat, k: nat :: !AccessionMatch(header, p, k)
    ensures r.Some? ==> exists p: nat, k: nat :: FirstMatch(header, p, k) && r.value == header[p + 1..p + 1 + k]
    ensures r.Some? ==> r.value != [] && '\n' !in r.value
  {
    match SearchFrom(header, 0)
    case None => None
    case Some((p, k)) =>
      assert FirstMatch(header, p, k);
      Some(header[p + 1..p + 1 + k])
  }

  // ---------------------------------------------------------------------------
  // The reader
  // ---------------------------------------------------------------------------

  predicate IsHeader(line: string) {
    StartsWith(line, '>')
  }

  /**
   * The specification below is stated for any test `selects` that decides
   * whether a header opens a wanted block; sequence_reader's test is
   * `gene_name in line`.
   */
  function GeneTest(gene: string): string -> bool {
    line => Contains(line, gene)
  }

  /** The reader's variables: the include flag, the name found so far and the accumulated sequence. */
  datatype ReaderState = ReaderState(including: bool, name: Option<string>, sequence: string)

  /** Before the first line: flag off, no name, empty sequence. */
  const Start := ReaderState(false, None, "")

  /**
   * One line read: a header sets the flag to whether it is selected and, when
   * selected with an accession, sets the name; a body line read while the flag
   * is on is stripped and appended. The sequence is only ever extended, a
   * header adds nothing to it, and a changed name is the accession of a
   * selected header.
   */
  function Step(st: ReaderState, line: string, selects: string -> bool): (r: ReaderState)
    ensures st.sequence <= r.sequence
    ensures IsHeader(line) ==> r.sequence == st.sequence
    ensures r.name == st.name || (IsHeader(line) && selects(line) && r.name.Some? && r.name == Accession(line))
  {
    if IsHeader(line) then
      var on := selects(line);
      var acc := Accession(line);
      ReaderState(on, if on && acc.Some? then acc else st.name, st.sequence)
    else if st.including then
      st.(sequence := st.sequence + Strip(line))
    else
      st
  }

  /** The reader's variables once `lines` have been read in order. A name, once set, is non-empty and has no line feed. */
  function Read(lines: seq<string>, selects: string -> bool): (r: ReaderState)
    ensures r.name.Some? ==> r.name.value != [] && '\n' !in r.name.value
  {
    if lines == [] then Start else Step(Read(lines[..|lines| - 1], selects), lines[|lines| - 1], selects)
  }

  /**
   * sequence_reader over the lines of one file (each line with its terminator,
   * as iterating a text file yields them).
   */
  method SequenceReader(lines: seq<string>, geneName: string) returns (name: Option<string>, sequence: string)
    ensures name == Read(lines, GeneTest(geneName)).name
    ensures sequence == Read(lines, GeneTest(geneName)).sequence
  {
    sequence := "";
    name := None;
    var includeSequence := false;
    for i := 0 to |lines|
      invariant ReaderState(includeSequence, name, sequence) == Read(lines[..i], GeneTest(geneName))
    {
      var line := lines[i];
      assert lines[..i + 1][..i] == lines[..i];
      if IsHeader(line) {
        includeSequence := Contains(line, geneName);
        if includeSequence {
          var m := Accession(line);
          if m.Some? {
            name := m;
          }
        }
      } else if includeSequence {
        sequence := sequence + Strip(line);
      }
    }
    assert lines[..|lines|] == lines;
  }

  // ---------------------------------------------------------------------------
  // Properties of the reader
  // ---------------------------------------------------------------------------

  /** The body lines of one block, each stripped, concatenated. */
  function JoinStripped(body: seq<string>): string {
    if body == [] then "" else JoinStripped(body[..|body| - 1]) + Strip(body[|body| - 1])
  }

  /** Line `j` is a selected header and no header follows it. */
  predicate LatestHeaderSelected(lines: seq<string>, selects: string -> bool, j: int) {
    0 <= j < |lines| && IsHeader(lines[j]) && selects(lines[j])
    && forall m :: j < m < |lines| ==> !IsHeader(lines[m])
  }

  /**
   * The flag is on exactly when the most recent header is selected, so a body
   * line is taken exactly then; before any header the flag is off.
   */
  lemma {:induction false} FlagIsLatestHeader(lines: seq<string>, selects: string -> bool)
    ensures Read(lines, selects).including <==> exists j :: LatestHeaderSelected(lines, selects, j)
  {
    if lines != [] {
      var init := lines[..|lines| - 1];
      FlagIsLatestHeader(init, selects);
      if IsHeader(lines[|lines| - 1]) {
        if Read(lines, selects).including {
          assert LatestHeaderSelected(lines, selects, |lines| - 1);
        } else {
          forall j | 0 <= j < |lines| ensures !LatestHeaderSelected(lines, selects, j) {
          }
        }
      } else {
        if Read(lines, selects).including {
          var j :| LatestHeaderSelected(init, selects, j);
          assert LatestHeaderSelected(lines, selects, j);
        } else {
          forall j | 0 <= j < |lines| ensures !LatestHeaderSelected(lines, selects, j) {
            assert !LatestHeaderSelected(init, selects, j);
          }
        }
      }
    }
  }

  /** No line of `body` is a header. */
  predicate NoHeaders(body: seq<string>) {
    forall i :: 0 <= i < |body| ==> !IsHeader(body[i])
  }

  /** Reading `lines` and then one more line is one `Step` further. */
  lemma ReadSnoc(lines: seq<string>, line: string, selects: string -> bool)
    ensures Read(lines + [line], selects) == Step(Read(lines, selects), line, selects)
  {
    assert (lines + [line])[..|lines|] == lines;
  }

  /** The name the reader returns is the accession of one of the selected headers. */
  lemma {:induction false} NameFromSelectedHeader(lines: seq<string>, selects: string -> bool)
    ensures Read(lines, selects).name.Some? ==>
              exists i :: 0 <= i < |lines| && IsHeader(lines[i]) && selects(lines[i])
                          && Accession(lines[i]) == Read(lines, selects).name
  {
    if lines != [] {
      var init := lines[..|lines| - 1];
      NameFromSelectedHeader(init, selects);
      if Read(lines, selects).name != Read(init, selects).name {
        assert IsHeader(lines[|lines| - 1]);
      } else if Read(init, selects).name.Some? {
        var i :| 0 <= i < |init| && IsHeader(init[i]) && selects(init[i])
                 && Accession(init[i]) == Read(init, selects).name;
        assert init[i] == lines[i];
      }
    }
  }

  /** Lines without any header leave the reader in its initial state. */
  lemma {:induction false} PreambleIgnored(lines: seq<string>, selects: string -> bool)
    requires NoHeaders(lines)
    ensures Read(lines, selects) == Start
  {
    if lines != [] {
      PreambleIgnored(lines[..|lines| - 1], selects);
    }
  }

  /** The state after a selected or unselected header followed by body lines. */
  function AfterBlock(st: ReaderState, header: string, body: seq<string>, selects: string -> bool): ReaderState {
    var on := selects(header);
    ReaderState(on,
                if on && Accession(header).Some? then Accession(header) else st.name,
                st.sequence + if on then JoinStripped(body) else "")
  }

  /**
   * Reading one more block (a header and the body lines up to the next
   * header): the sequence is extended, never reset, by the block's stripped
   * body when the header is selected; the name changes only when that header
   * is selected and also matches the accession pattern.
   */
  lemma {:induction false} ReadBlock(pre: seq<string>, header: string, body: seq<string>, selects: string -> bool)
    requires IsHeader(header) && NoHeaders(body)
    ensures Read(pre + [header] + body, selects) == AfterBlock(Read(pre, selects), header, body, selects)
  {
    if body == [] {
      assert pre + [header] + body == pre + [header];
      ReadSnoc(pre, header, selects);
    } else {
      var init, last := body[..|body| - 1], body[|body| - 1];
      var prev := pre + [header] + init;
      ReadBlock(pre, header, init, selects);
      assert pre + [header] + body == prev + [last];
      ReadSnoc(prev, last, selects);
      var a, j, t := Read(pre, selects).sequence, JoinStripped(init), Strip(last);
      if selects(header) {
        assert a + j + t == a + (j + t);
      } else {
        assert a + "" == a;
      }
    }
  }

  /** With no selected header the reader returns (None, ""). */
  lemma {:induction false} NoSelectedHeader(lines: seq<string>, selects: string -> bool)
    requires forall i :: 0 <= i < |lines| && IsHeader(lines[i]) ==> !selects(lines[i])
    ensures Read(lines, selects) == Start
  {
    if lines != [] {
      NoSelectedHeader(lines[..|lines| - 1], selects);
    }
  }

  /**
   * Two records where only the second header is selected: the reader returns
   * the second record's accession and exactly its body.
   */
  lemma SecondRecordOnly(h1: string, b1: seq<string>, h2: string, b2: seq<string>,
                         selects: string -> bool, acc: string)
    requires IsHeader(h1) && IsHeader(h2) && NoHeaders(b1) && NoHeaders(b2)
    requires !selects(h1) && selects(h2) && Accession(h2) == Some(acc)
    ensures Read([h1] + b1 + [h2] + b2, selects).name == Some(acc)
    ensures Read([h1] + b1 + [h2] + b2, selects).sequence == JoinStripped(b2)
  {
    ReadBlock([], h1, b1, selects);
    assert [] + [h1] + b1 == [h1] + b1;
    ReadBlock([h1] + b1, h2, b2, selects);
  }

  /**
   * Two records whose headers are both selected, the second without an
   * accession: the sequence is both bodies, the name stays the first one's.
   */
  lemma BothRecordsSelected(h1: string, b1: seq<string>, h2: string, b2: seq<string>,
                            selects: string -> bool, acc: string)
    requires IsHeader(h1) && IsHeader(h2) && NoHeaders(b1) && NoHeaders(b2)
    requires selects(h1) && Accession(h1) == Some(acc)
    requires selects(h2) && Accession(h2) == None
    ensures Read([h1] + b1 + [h2] + b2, selects).name == Some(acc)
    ensures Read([h1] + b1 + [h2] + b2, selects).sequence == JoinStripped(b1) + JoinStripped(b2)
  {
    ReadBlock([], h1, b1, selects);
    assert [] + [h1] + b1 == [h1] + b1;
    var first := Read([h1] + b1, selects);
    assert first.sequence == "" + JoinStripped(b1) == JoinStripped(b1);
    ReadBlock([h1] + b1, h2, b2, selects);
  }

  /** A line as iterating a text file yields it: a line feed, if any, only at its end. */
  predicate IsLine(l: string) {
    forall k :: 0 <= k < |l| - 1 ==> l[k] != '\n'
  }

  /** Every element of `lines` is such a line. */
  predicate AllLines(lines: seq<string>) {
    forall i :: 0 <= i < |lines| ==> IsLine(lines[i])
  }

  /**
   * The accumulated sequence never ends in whitespace, holds no line feed when
   * the input consists of proper lines, and the name, once set, is non-empty.
   */
  lemma {:induction false} ReadResultShape(lines: seq<string>, selects: string -> bool)
    ensures var s := Read(lines, selects).sequence; s == [] || !IsSpace(s[|s| - 1])
    ensures AllLines(lines) ==> '\n' !in Read(lines, selects).sequence
    ensures Read(lines, selects).name.Some? ==> Read(lines, selects).name.value != []
  {
    if lines != [] {
      var init, last := lines[..|lines| - 1], lines[|lines| - 1];
      ReadResultShape(init, selects);
      var a := Read(init, selects).sequence;
      if !IsHeader(last) && Read(init, selects).including {
        var t := Strip(last);
        assert Read(lines, selects).sequence == a + t;
        if t != [] {
          assert (a + t)[|a + t| - 1] == t[|t| - 1];
        }
        if AllLines(lines) {
          assert AllLines(init);
          StripRemovesTerminator(last);
          assert forall c :: c in a + t ==> c in a || c in t;
        }
      } else if AllLines(lines) {
        assert AllLines(init);
      }
    }
  }
}
