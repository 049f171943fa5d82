/**
 * Reading back what the exporter wrote: `parseRTTM(generateRTTM(f, rs, sp))`
 * gives the regions in the exporter's order, with their bounds and speaker
 * ids, as long as the file name and the speaker ids are non-empty and hold
 * no white space (otherwise the fields would shift).
 */
module RttmRoundTrip {
  import opened Wrappers
  import opened Text
  import opened Decimal
  import opened Model
  import opened RttmParser
  import opened RttmExporter

  /** What the parser makes of an exported region: its bounds, and its speaker id standing in for the name. */
  function AsParsed(r: Region): ParsedRegion {
    ParsedRegion(r.start, r.end, r.speakerId, r.speakerId)
  }

  function AllParsed(rs: seq<Region>): (ps: seq<ParsedRegion>)
    ensures |ps| == |rs| && forall i :: 0 <= i < |rs| ==> ps[i] == AsParsed(rs[i])
  {
    if rs == [] then [] else AllParsed(rs[..|rs| - 1]) + [AsParsed(rs[|rs| - 1])]
  }

  /** A field that survives `split(/\s+/)` unchanged: non-empty and free of white space. */
  predicate Word(s: string) {
    s != [] && NoSpace(s)
  }

  /** The file name and every speaker id are single words. */
  predicate Writable(filename: string, regions: seq<Region>) {
    Word(filename) && forall r :: r in regions ==> Word(r.speakerId)
  }

  lemma WordHasNoNewline(s: string)
    requires Word(s)
    ensures '\n' !in s
  {
  }

  lemma Fixed2IsWord(h: int)
    ensures Word(Fixed2(h))
  {
    var s := Fixed2(h);
    forall i | 0 <= i < |s|
      ensures !IsSpace(s[i])
    {
      assert IsDigit(s[i]) || s[i] == '.' || s[i] == '-';
    }
  }

  /** A `SPEAKER` record whose time fields read as numbers decodes to those times and its speaker field. */
  lemma ParseRecordOf(filename: string, a: string, d: string, id: string, start: int, duration: int)
    requires ParseNumber(a) == Some(start) && ParseNumber(d) == Some(duration)
    ensures ParseRecord(["SPEAKER", filename, "1", a, d, "<NA>", "<NA>", id, "<NA>"])
      == Some(ParsedRegion(start, start + duration, id, id))
  {
  }

  /** A record written with `toFixed(2)` times decodes to those times. */
  lemma ParseFixedRecord(filename: string, start: int, duration: int, id: string)
    ensures ParseRecord(["SPEAKER", filename, "1", Fixed2(start), Fixed2(duration), "<NA>", "<NA>", id, "<NA>"])
      == Some(ParsedRegion(start, start + duration, id, id))
  {
    ParseFixed2(start);
    ParseFixed2(duration);
    ParseRecordOf(filename, Fixed2(start), Fixed2(duration), id, start, duration);
  }

  /** The fields of an exported record decode to the region they were written from. */
  lemma ParseRecordFields(filename: string, r: Region)
    ensures ParseRecord(RecordFields(filename, r)) == Some(AsParsed(r))
  {
    ParseFixedRecord(filename, r.start, Duration(r), r.speakerId);
  }

  lemma ConstantFieldsAreWords()
    ensures Word("SPEAKER") && Word("1") && Word("<NA>")
  {
  }

  lemma RecordFieldsAreWords(filename: string, r: Region)
    requires Word(filename) && Word(r.speakerId)
    ensures forall i :: 0 <= i < |RecordFields(filename, r)| ==> Word(RecordFields(filename, r)[i])
  {
    var fields := RecordFields(filename, r);
    Fixed2IsWord(r.start);
    Fixed2IsWord(Duration(r));
    ConstantFieldsAreWords();
    assert fields == ["SPEAKER", filename, "1", Fixed2(r.start), Fixed2(Duration(r)), "<NA>", "<NA>", r.speakerId, "<NA>"];
  }

  /** An exported record line starts with `S`, ends with `>`, and so has nothing to trim. */
  lemma RecordLineTrimmed(filename: string, r: Region)
    ensures var line := RecordLine(filename, r);
      line != [] && line[0] == 'S' && Trim(line) == line
  {
    RecordLineEnds(filename, r);
    TrimOfTrimmed(RecordLine(filename, r));
  }

  /** An exported record line splits at its spaces into the fields it was joined from. */
  lemma RecordLineSplits(filename: string, r: Region)
    requires Word(filename) && Word(r.speakerId)
    ensures SplitSpaces(RecordLine(filename, r)) == RecordFields(filename, r)
  {
    RecordFieldsAreWords(filename, r);
    SplitSpacesOfJoin(RecordFields(filename, r));
  }

  /** An exported record line is not skipped, and splits into the fields it was joined from. */
  lemma RecordLineFields(filename: string, r: Region)
    requires Word(filename) && Word(r.speakerId)
    ensures !IsSkipped(RecordLine(filename, r)) && Fields(RecordLine(filename, r)) == RecordFields(filename, r)
  {
    RecordLineTrimmed(filename, r);
    RecordLineSplits(filename, r);
  }

  /** One exported record line parses back to the region it was written from. */
  lemma ParseRecordLine(filename: string, r: Region)
    requires Word(filename) && Word(r.speakerId)
    ensures ParseLine(RecordLine(filename, r)) == Some(AsParsed(r))
  {
    RecordLineFields(filename, r);
    ParseRecordFields(filename, r);
  }

  lemma {:induction false} ParseLinesOfRecords(filename: string, rs: seq<Region>)
    requires Writable(filename, rs)
    ensures ParseLines(RecordLines(filename, rs)) == AllParsed(rs)
  {
    if rs != [] {
      var init := rs[..|rs| - 1];
      var last := rs[|rs| - 1];
      var lines := RecordLines(filename, rs);
      assert Writable(filename, init) by {
        forall r | r in init
          ensures Word(r.speakerId)
        {
          assert r in rs;
        }
      }
      assert lines[..|lines| - 1] == RecordLines(filename, init);
      assert ParseLines(lines) == ParseLines(RecordLines(filename, init)) + Emitted(ParseLine(RecordLine(filename, last)));
      ParseLinesOfRecords(filename, init);
      assert ParseLine(RecordLine(filename, last)) == Some(AsParsed(last)) by {
        assert last in rs;
        ParseRecordLine(filename, last);
      }
      assert AllParsed(rs) == AllParsed(init) + [AsParsed(last)];
    }
  }

  /** Sorting keeps every speaker id a single word. */
  lemma SortedWritable(filename: string, regions: seq<Region>)
    requires Writable(filename, regions)
    ensures Writable(filename, SortByStart(regions))
  {
    SortByStartPermutes(regions);
    forall r | r in SortByStart(regions)
      ensures Word(r.speakerId)
    {
      assert r in multiset(regions);
    }
  }

  /** The exported text splits at its line feeds into the record lines of the sorted regions. */
  lemma ExportedSplit(filename: string, regions: seq<Region>, speakers: seq<Speaker>)
    requires Writable(filename, regions) && regions != []
    ensures Split(GenerateRTTM(filename, regions, speakers), '\n') == RecordLines(filename, SortByStart(regions))
  {
    WordHasNoNewline(filename);
    forall r | r in regions
      ensures '\n' !in r.speakerId
    {
      WordHasNoNewline(r.speakerId);
    }
    OneLinePerRegion(filename, regions, speakers);
  }

  /** The exported text starts with `S` and ends with `>`, so it is its own trim. */
  lemma ExportedTrimmed(filename: string, regions: seq<Region>, speakers: seq<Speaker>)
    requires regions != []
    ensures var text := GenerateRTTM(filename, regions, speakers);
      text != [] && Trim(text) == text
  {
    var sorted := SortByStart(regions);
    SortByStartLength(regions);
    var lines := RecordLines(filename, sorted);
    RecordLineEnds(filename, sorted[0]);
    RecordLineEnds(filename, sorted[|sorted| - 1]);
    JoinStartsWith(lines, '\n');
    JoinEndsWith(lines, '\n');
    TrimOfTrimmed(Join(lines, '\n'));
  }

  /** The exported text is its own trim and splits into the record lines of the sorted regions. */
  lemma ExportedLines(filename: string, regions: seq<Region>, speakers: seq<Speaker>)
    requires Writable(filename, regions) && regions != []
    ensures var text := GenerateRTTM(filename, regions, speakers);
      && text != [] && Trim(text) == text
      && Split(text, '\n') == RecordLines(filename, SortByStart(regions))
      && Writable(filename, SortByStart(regions))
  {
    SortedWritable(filename, regions);
    ExportedSplit(filename, regions, speakers);
    ExportedTrimmed(filename, regions, speakers);
  }

  /**
   * Export then import: the parser returns the regions sorted by start (ties
   * in input order), each with its bounds and its speaker id.
   */
  lemma RoundTrip(filename: string, regions: seq<Region>, speakers: seq<Speaker>)
    requires Writable(filename, regions)
    ensures Parse(GenerateRTTM(filename, regions, speakers)) == AllParsed(SortByStart(regions))
  {
    var text := GenerateRTTM(filename, regions, speakers);
    SortByStartLength(regions);
    GenerateEmptyIff(filename, regions, speakers);
    if regions != [] {
      ExportedLines(filename, regions, speakers);
      assert Parse(text) == ParseLines(RecordLines(filename, SortByStart(regions)));
      ParseLinesOfRecords(filename, SortByStart(regions));
    }
  }

  /**
   * Export, import and re-attach the roster: one region per exported region,
   * in start order, with its bounds and speaker id, the roster name where the
   * roster has a non-empty one, and fresh ids.
   */
  lemma ImportAfterExport(filename: string, regions: seq<Region>, speakers: seq<Speaker>, firstId: RegionId)
    requires Writable(filename, regions)
    ensures var back := MapSpeakersToRegions(Parse(GenerateRTTM(filename, regions, speakers)), speakers, firstId);
      var sorted := SortByStart(regions);
      && |back| == |sorted| == |regions|
      && (forall i :: 0 <= i < |back| ==>
            && back[i].start == sorted[i].start && back[i].end == sorted[i].end
            && back[i].speakerId == sorted[i].speakerId
            && back[i].speakerName == DisplayName(speakers, sorted[i].speakerId))
      && multiset(sorted) == multiset(regions)
  {
    RoundTrip(filename, regions, speakers);
    SortByStartLength(regions);
    SortByStartPermutes(regions);
  }
}
