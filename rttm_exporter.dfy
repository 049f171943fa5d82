/**
 * Writing regions as RTTM text (`generateRTTM` in `src/utils/rttmExporter.js`):
 * a sorted copy of the regions, one record line per region, lines joined by
 * a line feed. The record layout follows Appendix A of the NIST RT-09 Rich
 * Transcription Meeting Recognition Evaluation Plan, of which the exporter
 * writes the first nine fields.
 */
module RttmExporter {
  import opened Text
  import opened Decimal
  import opened Model

  // ---------------------------------------------------------------------
  // `[...regions].sort((a, b) => a.start - b.start)`: a stable sort on a copy

  predicate SortedByStart(rs: seq<Region>) {
    forall i, j :: 0 <= i < j < |rs| ==> rs[i].start <= rs[j].start
  }

  /** Places `r` after the last element whose start is not greater than its own. */
  function Insert(sorted: seq<Region>, r: Region): seq<Region> {
    if sorted == [] then [r]
    else if sorted[|sorted| - 1].start <= r.start then sorted + [r]
    else Insert(sorted[..|sorted| - 1], r) + [sorted[|sorted| - 1]]
  }

  /** The order `Array.prototype.sort` gives with this comparator (the sort is stable). */
  function SortByStart(rs: seq<Region>): seq<Region> {
    if rs == [] then [] else Insert(SortByStart(rs[..|rs| - 1]), rs[|rs| - 1])
  }

  /** The regions of `rs` that start at `t`, in their order in `rs`. */
  function StartingAt(rs: seq<Region>, t: int): seq<Region> {
    if rs == [] then []
    else StartingAt(rs[..|rs| - 1], t) + (if rs[|rs| - 1].start == t then [rs[|rs| - 1]] else [])
  }

  lemma {:induction false} InsertPermutes(sorted: seq<Region>, r: Region)
    ensures multiset(Insert(sorted, r)) == multiset(sorted) + multiset{r}
  {
    if sorted != [] && sorted[|sorted| - 1].start > r.start {
      var init := sorted[..|sorted| - 1];
      InsertPermutes(init, r);
      assert sorted == init + [sorted[|sorted| - 1]];
    }
  }

  lemma {:induction false} InsertSorted(sorted: seq<Region>, r: Region)
    requires SortedByStart(sorted)
    ensures SortedByStart(Insert(sorted, r))
  {
    if sorted != [] && sorted[|sorted| - 1].start > r.start {
      var init := sorted[..|sorted| - 1];
      var last := sorted[|sorted| - 1];
      InsertSorted(init, r);
      InsertPermutes(init, r);
      var ins := Insert(init, r);
      forall i | 0 <= i < |ins|
        ensures ins[i].start <= last.start
      {
        assert ins[i] in multiset(ins);
        assert ins[i] in multiset(init) || ins[i] == r;
      }
    }
  }

  lemma {:induction false} InsertKeepsTies(sorted: seq<Region>, r: Region, t: int)
    ensures StartingAt(Insert(sorted, r), t) == StartingAt(sorted, t) + (if r.start == t then [r] else [])
  {
    if sorted == [] {
      assert Insert(sorted, r) == [] + [r];
    } else if sorted[|sorted| - 1].start <= r.start {
      assert (sorted + [r])[..|sorted|] == sorted;
    } else {
      var init := sorted[..|sorted| - 1];
      var last := sorted[|sorted| - 1];
      InsertKeepsTies(init, r, t);
      var ins := Insert(init, r);
      assert (ins + [last])[..|ins|] == ins;
    }
  }

  /** The sorted copy is ordered by start. */
  lemma {:induction false} SortByStartSorted(rs: seq<Region>)
    ensures SortedByStart(SortByStart(rs))
  {
    if rs != [] {
      SortByStartSorted(rs[..|rs| - 1]);
      InsertSorted(SortByStart(rs[..|rs| - 1]), rs[|rs| - 1]);
    }
  }

  /** The sorted copy holds exactly the input regions, each as often as the input does. */
  lemma {:induction false} SortByStartPermutes(rs: seq<Region>)
    ensures multiset(SortByStart(rs)) == multiset(rs)
  {
    if rs != [] {
      var init := rs[..|rs| - 1];
      var last := rs[|rs| - 1];
      assert multiset(rs) == multiset(init) + multiset{last} by {
        assert rs == init + [last];
      }
      assert SortByStart(rs) == Insert(SortByStart(init), last);
      SortByStartPermutes(init);
      InsertPermutes(SortByStart(init), last);
    }
  }

  /** Stability: regions with equal starts keep their input order. */
  lemma {:induction false} SortByStartStable(rs: seq<Region>, t: int)
    ensures StartingAt(SortByStart(rs), t) == StartingAt(rs, t)
  {
    if rs != [] {
      SortByStartStable(rs[..|rs| - 1], t);
      InsertKeepsTies(SortByStart(rs[..|rs| - 1]), rs[|rs| - 1], t);
    }
  }

  lemma {:induction false} SortByStartLength(rs: seq<Region>)
    ensures |SortByStart(rs)| == |rs|
  {
    SortByStartPermutes(rs);
    assert |multiset(SortByStart(rs))| == |multiset(rs)|;
  }

  // ---------------------------------------------------------------------
  // Record lines

  /** `region.end - region.start` */
  function Duration(r: Region): int {
    r.end - r.start
  }

  /** The nine fields of one record. */
  function RecordFields(filename: string, r: Region): seq<string> {
    ["SPEAKER", filename, "1", Fixed2(r.start), Fixed2(Duration(r)), "<NA>", "<NA>", r.speakerId, "<NA>"]
  }

  /** The template string of one record: its fields separated by single spaces. */
  function RecordLine(filename: string, r: Region): string {
    Join(RecordFields(filename, r), ' ')
  }

  function RecordLines(filename: string, rs: seq<Region>): (lines: seq<string>)
    ensures |lines| == |rs| && forall i :: 0 <= i < |rs| ==> lines[i] == RecordLine(filename, rs[i])
  {
    seq(|rs|, i requires 0 <= i < |rs| => RecordLine(filename, rs[i]))
  }

  /**
   * `generateRTTM(filename, regions, speakers)`. The roster is looked up in
   * the source but the result of the lookup is never used, so `speakers`
   * plays no part in the text.
   */
  function GenerateRTTM(filename: string, regions: seq<Region>, speakers: seq<Speaker>): string {
    Join(RecordLines(filename, SortByStart(regions)), '\n')
  }

  // ---------------------------------------------------------------------
  // Properties of the text

  /** A record line starts with `S` and ends with `>`. */
  lemma RecordLineEnds(filename: string, r: Region)
    ensures var line := RecordLine(filename, r);
      line != [] && line[0] == 'S' && line[|line| - 1] == '>'
  {
    var fields := RecordFields(filename, r);
    JoinStartsWith(fields, ' ');
    JoinEndsWith(fields, ' ');
  }

  /** A character that is neither the separator nor in any piece is not in the join. */
  lemma {:induction false} JoinAvoids(parts: seq<string>, sep: char, c: char)
    requires c != sep && forall i :: 0 <= i < |parts| ==> c !in parts[i]
    ensures c !in Join(parts, sep)
  {
    if |parts| > 1 {
      JoinAvoids(parts[1..], sep, c);
    }
  }

  /** The text is empty exactly when there are no regions. */
  lemma GenerateEmptyIff(filename: string, regions: seq<Region>, speakers: seq<Speaker>)
    ensures GenerateRTTM(filename, regions, speakers) == [] <==> regions == []
  {
    var sorted := SortByStart(regions);
    SortByStartLength(regions);
    if regions != [] {
      var lines := RecordLines(filename, sorted);
      RecordLineEnds(filename, sorted[0]);
      JoinStartsWith(lines, '\n');
    }
  }

  /**
   * When neither the file name nor a speaker id holds a line feed, the text
   * splits back into one record line per region, in ascending start order,
   * with no trailing empty line.
   */
  lemma OneLinePerRegion(filename: string, regions: seq<Region>, speakers: seq<Speaker>)
    requires regions != []
    requires '\n' !in filename && forall r :: r in regions ==> '\n' !in r.speakerId
    ensures var lines := Split(GenerateRTTM(filename, regions, speakers), '\n');
      var sorted := SortByStart(regions);
      && |lines| == |sorted| == |regions|
      && (forall i :: 0 <= i < |lines| ==> lines[i] == RecordLine(filename, sorted[i]))
      && (forall i, j :: 0 <= i < j < |sorted| ==> sorted[i].start <= sorted[j].start)
  {
    var sorted := SortByStart(regions);
    SortByStartLength(regions);
    SortByStartSorted(regions);
    SortByStartPermutes(regions);
    var lines := RecordLines(filename, sorted);
    forall i | 0 <= i < |lines|
      ensures '\n' !in lines[i]
    {
      assert sorted[i] in multiset(regions);
      RecordLineAvoidsNewline(filename, sorted[i]);
    }
    SplitOfJoin(lines, '\n');
  }

  lemma RecordLineAvoidsNewline(filename: string, r: Region)
    requires '\n' !in filename && '\n' !in r.speakerId
    ensures '\n' !in RecordLine(filename, r)
  {
    var fields := RecordFields(filename, r);
    forall i | 0 <= i < |fields|
      ensures '\n' !in fields[i]
    {
      if i == 3 {
        Fixed2AvoidsNewline(r.start);
      } else if i == 4 {
        Fixed2AvoidsNewline(Duration(r));
      }
    }
    JoinAvoids(fields, ' ', '\n');
  }

  lemma Fixed2AvoidsNewline(h: int)
    ensures '\n' !in Fixed2(h)
  {
    var t := Fixed2(h);
    forall k | 0 <= k < |t|
      ensures t[k] != '\n'
    {
      assert IsDigit(t[k]) || t[k] == '.' || t[k] == '-';
    }
  }

  /** The roster argument plays no part: any two rosters give the same text. */
  lemma GenerateIgnoresRoster(filename: string, regions: seq<Region>, speakers: seq<Speaker>, others: seq<Speaker>)
    ensures GenerateRTTM(filename, regions, speakers) == GenerateRTTM(filename, regions, others)
  {
  }

  /** One region written at 1.5 s for 2.25 s: the fields the exporter prints. */
  lemma ExampleRecord()
    ensures RecordFields("meeting", Region(0, 150, 375, "speaker_0", "Speaker 0"))
         == ["SPEAKER", "meeting", "1", "1.50", "2.25", "<NA>", "<NA>", "speaker_0", "<NA>"]
  {
    assert Unsigned2(150) == "1.50" by {
      assert NatToString(1) == "1";
    }
    assert Unsigned2(225) == "2.25" by {
      assert NatToString(2) == "2";
    }
  }
}
