/**
 * The records the labelling tool passes around. Times are integer hundredths
 * of a second; region ids come from a counter (see `WaveSurferHook`).
 */
module Model {
  import opened Wrappers

  type RegionId = nat

  /** The drag width (0.1 s) a draft must exceed to be drawn and kept. */
  const MinWidth: int := 10

  function Min(a: int, b: int): int {
    if a <= b then a else b
  }

  function Max(a: int, b: int): int {
    if a >= b then a else b
  }

  /** A bare interval: the draft region and the bounds of an overlap. */
  datatype Span = Span(start: int, end: int)

  /** A confirmed, speaker-tagged region: `{ id, start, end, speakerId, speakerName }`. */
  datatype Region = Region(id: RegionId, start: int, end: int, speakerId: string, speakerName: string)

  /** A roster entry: `{ id, name, color }`. */
  datatype Speaker = Speaker(id: string, name: string, color: string)

  /** The index of the first roster entry with the given id, or `|speakers|`. */
  function SpeakerIndex(speakers: seq<Speaker>, id: string): (k: nat)
    ensures k <= |speakers|
    ensures forall j :: 0 <= j < k ==> speakers[j].id != id
    ensures k < |speakers| ==> speakers[k].id == id
  {
    if speakers == [] then 0
    else if speakers[0].id == id then 0
    else 1 + SpeakerIndex(speakers[1..], id)
  }

  /** `speakers.find(s => s.id === id)`: the first roster entry with that id. */
  function FindSpeaker(speakers: seq<Speaker>, id: string): (r: Option<Speaker>)
    ensures r.Some? ==> r.value in speakers && r.value.id == id
    ensures r.Some? ==> exists k ::
      && 0 <= k < |speakers| && speakers[k] == r.value
      && forall j :: 0 <= j < k ==> speakers[j].id != id
    ensures r.None? <==> forall k :: 0 <= k < |speakers| ==> speakers[k].id != id
  {
    var k := SpeakerIndex(speakers, id);
    if k < |speakers| then Some(speakers[k]) else None
  }

  /** The ids present in a region list. */
  function Ids(rs: seq<Region>): set<RegionId> {
    set r | r in rs :: r.id
  }

  /** No id occurs twice in the list. */
  predicate DistinctIds(rs: seq<Region>) {
    forall i, j :: 0 <= i < j < |rs| ==> rs[i].id != rs[j].id
  }

  /** The region with the given id, if the list holds one (the first one). */
  function Lookup(rs: seq<Region>, id: RegionId): (r: Option<Region>)
    ensures r.Some? ==> r.value in rs && r.value.id == id
    ensures r.None? <==> id !in Ids(rs)
  {
    if rs == [] then None
    else if rs[0].id == id then Some(rs[0])
    else
      var r := Lookup(rs[1..], id);
      assert Ids(rs) == {rs[0].id} + Ids(rs[1..]);
      r
  }
}
