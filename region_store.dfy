/**
 * The region list store of `src/hooks/useRegions.js`: every operation builds
 * a new list from the previous one (spread, `map`, `filter`).
 */
module RegionStore {
  import opened Wrappers
  import opened Model

  /** The `updates` object of `updateRegion`: the fields it carries, each optional. */
  datatype RegionUpdate = RegionUpdate(
    id: Option<RegionId>, start: Option<int>, end: Option<int>,
    speakerId: Option<string>, speakerName: Option<string>)

  function Pick<T>(update: Option<T>, current: T): T {
    if update.Some? then update.value else current
  }

  /** `{ ...r, ...updates }`: the fields the update carries win. */
  function Merge(r: Region, u: RegionUpdate): Region {
    Region(Pick(u.id, r.id), Pick(u.start, r.start), Pick(u.end, r.end),
           Pick(u.speakerId, r.speakerId), Pick(u.speakerName, r.speakerName))
  }

  /** `addRegion`: `[...prev, region]`. */
  function AddRegion(rs: seq<Region>, region: Region): (r: seq<Region>)
    ensures |r| == |rs| + 1 && r[..|rs|] == rs && r[|rs|] == region
    ensures Ids(r) == Ids(rs) + {region.id}
  {
    rs + [region]
  }

  /** `updateRegion`: `prev.map(r => r.id === id ? { ...r, ...updates } : r)`. */
  function UpdateRegion(rs: seq<Region>, id: RegionId, u: RegionUpdate): seq<Region> {
    seq(|rs|, i requires 0 <= i < |rs| => if rs[i].id == id then Merge(rs[i], u) else rs[i])
  }

  /** `deleteRegion`: `prev.filter(r => r.id !== id)`. */
  function DeleteRegion(rs: seq<Region>, id: RegionId): seq<Region> {
    if rs == [] then []
    else DeleteRegion(rs[..|rs| - 1], id) + (if rs[|rs| - 1].id == id then [] else [rs[|rs| - 1]])
  }

  /** `clearRegions`: the previous list is dropped. */
  function ClearRegions(rs: seq<Region>): (r: seq<Region>)
    ensures |r| == 0 && Ids(r) == {}
  {
    []
  }

  // ---------------------------------------------------------------------
  // updateRegion

  /**
   * Every entry with the id is merged with the update; every other entry,
   * the length and the order stay as they were.
   */
  lemma UpdateRegionEffect(rs: seq<Region>, id: RegionId, u: RegionUpdate)
    ensures var r := UpdateRegion(rs, id, u);
      && |r| == |rs|
      && (forall i :: 0 <= i < |rs| && rs[i].id == id ==>
            r[i].start == Pick(u.start, rs[i].start) && r[i].end == Pick(u.end, rs[i].end)
            && r[i].speakerId == Pick(u.speakerId, rs[i].speakerId)
            && r[i].speakerName == Pick(u.speakerName, rs[i].speakerName)
            && r[i].id == Pick(u.id, id))
      && (forall i :: 0 <= i < |rs| && rs[i].id != id ==> r[i] == rs[i])
  {
  }

  /** Updating an id the list does not hold changes nothing. */
  lemma {:induction false} UpdateRegionAbsent(rs: seq<Region>, id: RegionId, u: RegionUpdate)
    requires id !in Ids(rs)
    ensures UpdateRegion(rs, id, u) == rs
  {
    var r := UpdateRegion(rs, id, u);
    forall i | 0 <= i < |rs|
      ensures r[i] == rs[i]
    {
      assert rs[i] in rs;
    }
  }

  /** An update that keeps the id, applied twice, is the same as applied once. */
  lemma UpdateRegionIdempotent(rs: seq<Region>, id: RegionId, u: RegionUpdate)
    requires u.id.None? || u.id == Some(id)
    ensures UpdateRegion(UpdateRegion(rs, id, u), id, u) == UpdateRegion(rs, id, u)
  {
  }

  // ---------------------------------------------------------------------
  // deleteRegion

  /** The result holds exactly the entries whose id differs. */
  lemma {:induction false} DeleteRegionMembers(rs: seq<Region>, id: RegionId)
    ensures forall r :: r in DeleteRegion(rs, id) <==> r in rs && r.id != id
  {
    if rs != [] {
      var init := rs[..|rs| - 1];
      DeleteRegionMembers(init, id);
      assert rs == init + [rs[|rs| - 1]];
    }
  }

  /** Filtering a concatenation filters each part: the kept entries stay in order. */
  lemma {:induction false} DeleteRegionAppend(a: seq<Region>, b: seq<Region>, id: RegionId)
    ensures DeleteRegion(a + b, id) == DeleteRegion(a, id) + DeleteRegion(b, id)
  {
    if b == [] {
      assert a + b == a;
    } else {
      var init := b[..|b| - 1];
      var last := b[|b| - 1];
      var tail := if last.id == id then [] else [last];
      DeleteRegionAppend(a, init, id);
      assert (a + b)[..|a + b| - 1] == a + init;
      assert (a + b)[|a + b| - 1] == last;
      assert DeleteRegion(a + b, id) == DeleteRegion(a + init, id) + tail;
      assert DeleteRegion(b, id) == DeleteRegion(init, id) + tail;
    }
  }

  lemma {:induction false} DeleteRegionKeepsAll(rs: seq<Region>, id: RegionId)
    requires forall i :: 0 <= i < |rs| ==> rs[i].id != id
    ensures DeleteRegion(rs, id) == rs
  {
    if rs != [] {
      var init := rs[..|rs| - 1];
      var last := rs[|rs| - 1];
      DeleteRegionKeepsAll(init, id);
      assert DeleteRegion(rs, id) == DeleteRegion(init, id) + [last];
      assert init + [last] == rs;
    }
  }

  /** Deleting an id the list does not hold changes nothing. */
  lemma DeleteRegionAbsent(rs: seq<Region>, id: RegionId)
    requires id !in Ids(rs)
    ensures DeleteRegion(rs, id) == rs
  {
    forall i | 0 <= i < |rs|
      ensures rs[i].id != id
    {
      assert rs[i] in rs;
    }
    DeleteRegionKeepsAll(rs, id);
  }

  /** The id is gone afterwards, so deleting twice is deleting once. */
  lemma DeleteRegionIdempotent(rs: seq<Region>, id: RegionId)
    ensures id !in Ids(DeleteRegion(rs, id))
    ensures DeleteRegion(DeleteRegion(rs, id), id) == DeleteRegion(rs, id)
  {
    DeleteRegionMembers(rs, id);
    DeleteRegionAbsent(DeleteRegion(rs, id), id);
  }

  /** Deleting keeps the ids of a list distinct. */
  lemma {:induction false} DeleteRegionDistinct(rs: seq<Region>, id: RegionId)
    requires DistinctIds(rs)
    ensures DistinctIds(DeleteRegion(rs, id))
  {
    if rs != [] {
      var init := rs[..|rs| - 1];
      var last := rs[|rs| - 1];
      DeleteRegionDistinct(init, id);
      DeleteRegionMembers(init, id);
      var d := DeleteRegion(init, id);
      if last.id != id {
        forall k | 0 <= k < |d|
          ensures d[k].id != last.id
        {
          assert d[k] in init;
          var m :| 0 <= m < |init| && init[m] == d[k];
          assert rs[m] == init[m];
        }
      }
    }
  }
}
