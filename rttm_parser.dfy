/**
 * Reading RTTM text back into regions (`src/utils/rttmParser.js`).
 *
 * A record line is `SPEAKER <file> 1 <start> <duration> <NA> <NA> <speaker> <NA> <NA>`;
 * the parser accepts any line with at least eight fields whose first field is
 * `SPEAKER`, and reads fields 3, 4 and 7.
 */
module RttmParser {
  import opened Wrappers
  import opened Text
  import opened Decimal
  import opened Model

  /** A decoded record, `{ start, end, speakerId, speakerName }`; decoding assigns no id. */
  datatype ParsedRegion = ParsedRegion(start: int, end: int, speakerId: string, speakerName: string)

  /** `line.trim().split(/\s+/)` */
  function Fields(line: string): seq<string> {
    SplitSpaces(Trim(line))
  }

  /** `!line.trim() || line.startsWith('#')`: the test is on the untrimmed line. */
  predicate IsSkipped(line: string) {
    Trim(line) == [] || (line != [] && line[0] == '#')
  }

  /** The region a record's fields describe: fields 3 and 4 must read as numbers. */
  function ParseRecord(parts: seq<string>): Option<ParsedRegion> {
    if |parts| >= 8 && parts[0] == "SPEAKER" then
      var start := ParseNumber(parts[3]);
      var duration := ParseNumber(parts[4]);
      if start.Some? && duration.Some? then
        Some(ParsedRegion(start.value, start.value + duration.value, parts[7], parts[7]))
      else None
    else None
  }

  /** The region one line contributes, if any. */
  function ParseLine(line: string): Option<ParsedRegion> {
    if IsSkipped(line) then None else ParseRecord(Fields(line))
  }

  function Emitted(r: Option<ParsedRegion>): seq<ParsedRegion> {
    if r.Some? then [r.value] else []
  }

  /** The regions the parsing loop pushes for the given lines, in line order. */
  function ParseLines(lines: seq<string>): seq<ParsedRegion> {
    if lines == [] then []
    else ParseLines(lines[..|lines| - 1]) + Emitted(ParseLine(lines[|lines| - 1]))
  }

  /** What `parseRTTM` returns for a string. */
  function Parse(content: string): seq<ParsedRegion> {
    if content == [] then [] else ParseLines(Split(Trim(content), '\n'))
  }

  /** Lines are decoded independently: the result for a concatenation is the concatenation. */
  lemma {:induction false} ParseLinesAppend(a: seq<string>, b: seq<string>)
    ensures ParseLines(a + b) == ParseLines(a) + ParseLines(b)
  {
    if b == [] {
      assert a + b == a;
    } else {
      var b' := b[..|b| - 1];
      var e := Emitted(ParseLine(b[|b| - 1]));
      assert (a + b)[..|a + b| - 1] == a + b';
      assert (a + b)[|a + b| - 1] == b[|b| - 1];
      assert ParseLines(a + b) == ParseLines(a + b') + e;
      ParseLinesAppend(a, b');
      assert ParseLines(b) == ParseLines(b') + e;
    }
  }

  /** A line that yields nothing (blank, comment, malformed, non-numeric) does not disturb the others. */
  lemma SkippedLineIsInert(before: seq<string>, line: string, after: seq<string>)
    requires ParseLine(line).None?
    ensures ParseLines(before + [line] + after) == ParseLines(before) + ParseLines(after)
  {
    ParseLinesAppend(before + [line], after);
    ParseLinesAppend(before, [line]);
    assert ParseLines([line]) == ParseLines([]) + Emitted(ParseLine(line)) by {
      assert [line][..0] == [];
    }
    assert ParseLines(before + [line]) == ParseLines(before);
  }

  /**
   * A line yields a region only when it is not skipped, has at least eight
   * fields and starts with `SPEAKER`; the region ends at start + duration and
   * is named after its speaker id.
   */
  lemma ParseLineShape(line: string)
    requires ParseLine(line).Some?
    ensures var r := ParseLine(line).value; var f := Fields(line);
      && !IsSkipped(line) && |f| >= 8 && f[0] == "SPEAKER"
      && ParseNumber(f[3]) == Some(r.start)
      && ParseNumber(f[4]).Some? && r.end == r.start + ParseNumber(f[4]).value
      && r.speakerId == f[7] && r.speakerName == f[7]
  {
  }

  /** Blank lines and lines starting with `#` never yield a region. */
  lemma SkippedLinesYieldNothing(line: string)
    requires (forall i :: 0 <= i < |line| ==> IsSpace(line[i])) || (line != [] && line[0] == '#')
    ensures ParseLine(line).None?
  {
    TrimEmptyIffBlank(line);
  }

  /**
   * The body of `parseRTTM`'s loop for one line: it pushes a region exactly
   * when the line is not skipped, has at least eight fields, starts with
   * `SPEAKER` and has numbers in fields 3 and 4; the region runs from field 3
   * for the duration in field 4 and is named after field 7.
   */
  method DecodeLine(line: string) returns (pushed: Option<ParsedRegion>)
    ensures var f := Fields(line);
      pushed.Some? <==>
        && !IsSkipped(line) && |f| >= 8 && f[0] == "SPEAKER"
        && ParseNumber(f[3]).Some? && ParseNumber(f[4]).Some?
    ensures pushed.Some? ==> var f := Fields(line);
      && pushed.value.start == ParseNumber(f[3]).value
      && pushed.value.end == pushed.value.start + ParseNumber(f[4]).value
      && pushed.value.speakerId == f[7] && pushed.value.speakerName == f[7]
    ensures pushed == ParseLine(line)
  {
    if IsSkipped(line) {
      return None;
    }
    var parts := Fields(line);
    if |parts| >= 8 && parts[0] == "SPEAKER" {
      var start := ParseNumber(parts[3]);
      var duration := ParseNumber(parts[4]);
      var speakerId := parts[7];
      if start.Some? && duration.Some? {
        return Some(ParsedRegion(start.value, start.value + duration.value, speakerId, speakerId));
      }
    }
    return None;
  }

  /** `parseRTTM`: a loop over the lines of the trimmed text, pushing one region per record line. */
  method ParseRTTM(content: string) returns (regions: seq<ParsedRegion>)
    ensures regions == Parse(content)
    ensures content == [] ==> regions == []
  {
    if content == [] {
      return [];
    }
    regions := [];
    var lines := Split(Trim(content), '\n');
    for i := 0 to |lines|
      invariant regions == ParseLines(lines[..i])
    {
      var pushed := DecodeLine(lines[i]);
      assert ParseLines(lines[..i + 1]) == ParseLines(lines[..i]) + Emitted(pushed) by {
        assert lines[..i + 1][..i] == lines[..i];
      }
      if pushed.Some? {
        regions := regions + [pushed.value];
      }
    }
    assert lines[..|lines|] == lines;
  }

  // ---------------------------------------------------------------------
  // mapSpeakersToRegions

  /** `speaker?.name || region.speakerId`: an empty roster name falls back to the id. */
  function DisplayName(speakers: seq<Speaker>, speakerId: string): (name: string)
    ensures name == speakerId || exists s :: s in speakers && s.id == speakerId && s.name == name && name != []
    ensures (forall s :: s in speakers ==> s.id != speakerId) ==> name == speakerId
    ensures var found := FindSpeaker(speakers, speakerId);
      found.Some? && found.value.name != [] ==> name == found.value.name
    ensures var found := FindSpeaker(speakers, speakerId);
      found.Some? && found.value.name == [] ==> name == speakerId
  {
    match FindSpeaker(speakers, speakerId)
    case Some(s) => if s.name != [] then s.name else speakerId
    case None => speakerId
  }

  /**
   * `mapSpeakersToRegions`: resolves each decoded id against the roster and
   * gives each region a fresh id (here `firstId + i`, standing for the
   * time-and-random ids of the source).
   */
  function MapSpeakersToRegions(regions: seq<ParsedRegion>, speakers: seq<Speaker>, firstId: RegionId): (r: seq<Region>)
    ensures |r| == |regions|
    ensures forall i :: 0 <= i < |r| ==>
      && r[i].start == regions[i].start && r[i].end == regions[i].end
      && r[i].speakerId == regions[i].speakerId
      && r[i].speakerName == DisplayName(speakers, regions[i].speakerId)
    ensures DistinctIds(r) && forall i :: 0 <= i < |r| ==> firstId <= r[i].id < firstId + |r|
  {
    seq(|regions|, i requires 0 <= i < |regions| =>
      Region(firstId + i, regions[i].start, regions[i].end, regions[i].speakerId,
             DisplayName(speakers, regions[i].speakerId)))
  }

  // ---------------------------------------------------------------------
  // extractSpeakerIds

  function SpeakerIds(regions: seq<ParsedRegion>): (ids: seq<string>)
    ensures |ids| == |regions| && forall i :: 0 <= i < |ids| ==> ids[i] == regions[i].speakerId
  {
    seq(|regions|, i requires 0 <= i < |regions| => regions[i].speakerId)
  }

  /** What a `Set` filled in order and read with `Array.from` holds: each value once, in first-appearance order. */
  function Dedup(s: seq<string>): seq<string> {
    if s == [] then []
    else
      var d := Dedup(s[..|s| - 1]);
      if s[|s| - 1] in d then d else d + [s[|s| - 1]]
  }

  predicate Distinct(s: seq<string>) {
    forall i, j :: 0 <= i < j < |s| ==> s[i] != s[j]
  }

  /** The index of the first occurrence of `x` in `s`. */
  function Position(s: seq<string>, x: string): (k: nat)
    requires x in s
    ensures k < |s| && s[k] == x && x !in s[..k]
  {
    if s[0] == x then 0 else 1 + Position(s[1..], x)
  }

  /** `Dedup` keeps every value, invents none, repeats none, and keeps first-appearance order. */
  lemma {:induction false} DedupIsFirstAppearances(s: seq<string>)
    ensures Distinct(Dedup(s))
    ensures forall x :: x in Dedup(s) <==> x in s
    ensures forall i, j :: 0 <= i < j < |Dedup(s)| ==> Position(s, Dedup(s)[i]) < Position(s, Dedup(s)[j])
  {
    if s != [] {
      var s' := s[..|s| - 1];
      var x := s[|s| - 1];
      var d := Dedup(s');
      DedupIsFirstAppearances(s');
      assert s == s' + [x];
      forall y | y in s'
        ensures Position(s, y) == Position(s', y)
      {
        PositionOfPrefix(s', [x], y);
      }
      if x !in d {
        assert x !in s';
        assert Position(s, x) == |s'| by {
          assert s[|s'|] == x && x !in s[..|s'|];
          PositionIsFirst(s, x, |s'|);
        }
      }
    }
  }

  lemma PositionIsFirst(s: seq<string>, x: string, k: nat)
    requires k < |s| && s[k] == x && x !in s[..k]
    ensures Position(s, x) == k
  {

  }

  lemma PositionOfPrefix(a: seq<string>, b: seq<string>, x: string)
    requires x in a
    ensures Position(a + b, x) == Position(a, x)
  {
    var k := Position(a, x);
    assert (a + b)[k] == x && (a + b)[..k] == a[..k];
    PositionIsFirst(a + b, x, k);
  }

  /** The deduplicated ids are distinct and are exactly the speaker ids of the regions. */
  lemma DedupSpeakerIds(regions: seq<ParsedRegion>)
    ensures Distinct(Dedup(SpeakerIds(regions)))
    ensures forall x :: x in Dedup(SpeakerIds(regions)) <==> exists r :: r in regions && r.speakerId == x
  {
    var ids := SpeakerIds(regions);
    DedupIsFirstAppearances(ids);
    forall x | x in ids
      ensures exists r :: r in regions && r.speakerId == x
    {
      var k :| 0 <= k < |ids| && ids[k] == x;
      assert regions[k] in regions;
    }
    forall r | r in regions
      ensures r.speakerId in ids
    {
      var k :| 0 <= k < |regions| && regions[k] == r;
      assert ids[k] == r.speakerId;
    }
  }

  /** One more region adds its id to the deduplicated ids unless it is already there. */
  lemma DedupSpeakerIdsStep(regions: seq<ParsedRegion>, i: nat)
    requires i < |regions|
    ensures var d := Dedup(SpeakerIds(regions[..i])); var x := regions[i].speakerId;
      Dedup(SpeakerIds(regions[..i + 1])) == if x in d then d else d + [x]
  {
    var s := SpeakerIds(regions[..i + 1]);
    assert s[..|s| - 1] == SpeakerIds(regions[..i]);
    assert s[|s| - 1] == regions[i].speakerId;
  }

  /** `extractSpeakerIds`: parses, then adds each region's speaker id to an insertion-ordered set. */
  method ExtractSpeakerIds(content: string) returns (ids: seq<string>)
    ensures ids == Dedup(SpeakerIds(Parse(content)))
    ensures Distinct(ids)
    ensures forall x :: x in ids <==> exists r :: r in Parse(content) && r.speakerId == x
  {
    var regions := ParseRTTM(content);
    ids := [];
    for i := 0 to |regions|
      invariant ids == Dedup(SpeakerIds(regions[..i]))
    {
      DedupSpeakerIdsStep(regions, i);
      var speakerId := regions[i].speakerId;
      if speakerId !in ids {
        ids := ids + [speakerId];
      }
    }
    assert regions[..|regions|] == regions;
    DedupSpeakerIds(regions);
  }
}
