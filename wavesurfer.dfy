/**
 * The draft/confirmed region engine of `src/hooks/useWaveSurfer.js`.
 *
 * The hook keeps its state in refs that its handlers update in place: the
 * drag flag, the drag anchor, at most one grey draft region, and a map from
 * region id to the confirmed region record, read back in insertion order.
 * Pointer positions arrive here already turned into times (hundredths of a
 * second); `shown` stands for the confirmed regions the regions plugin still
 * draws, so that removing only the drawing can be told apart from removing
 * the record.
 */
module WaveSurferHook {
  import opened Wrappers
  import opened Model
  import opened RegionStore

  /** The hook's refs as one value. */
  datatype Engine = Engine(
    isDragging: bool,        // isDraggingRef
    anchor: Option<int>,     // dragStartRef
    draft: Option<Span>,     // tempRegionRef
    entries: seq<Region>,    // confirmedRegionsMapRef, in insertion order
    shown: set<RegionId>,    // confirmed regions drawn by the plugin
    nextId: RegionId)        // the next fresh region id

  function Width(s: Span): int {
    s.end - s.start
  }

  /** The state before the first event. */
  function Idle(): Engine {
    Engine(false, None, None, [], {}, 0)
  }

  /**
   * What the handlers keep true: map keys are distinct and below the next
   * fresh id, every region (draft or confirmed) is wider than 0.1 s, and only
   * confirmed regions are drawn as such.
   */
  predicate Valid(e: Engine) {
    && DistinctIds(e.entries)
    && (forall i :: 0 <= i < |e.entries| ==> e.entries[i].id < e.nextId)
    && (forall i :: 0 <= i < |e.entries| ==> e.entries[i].end - e.entries[i].start > MinWidth)
    && e.shown <= Ids(e.entries)
    && (e.draft.Some? ==> Width(e.draft.value) > MinWidth)
  }

  /** `Math.max(0, Math.min(1, progress)) * duration`, on times. */
  function Clamp(t: int, duration: nat): int {
    if t < 0 then 0 else if t > duration then duration else t
  }

  // ---------------------------------------------------------------------
  // One step per handler

  /** `handleMouseDown`: ignored on a region and while a draft exists. */
  function AfterMouseDown(e: Engine, t: int, onRegion: bool): Engine {
    if onRegion || e.draft.Some? then e
    else e.(isDragging := true, anchor := Some(t))
  }

  /**
   * `handleMouseMove`: `!dragStartRef.current` also holds for an anchor of 0.
   * The draft is replaced only by a span wider than 0.1 s.
   */
  function AfterMouseMove(e: Engine, duration: nat, t: int): Engine {
    if !e.isDragging || e.anchor.None? || e.anchor.value == 0 then e
    else
      var c := Clamp(t, duration);
      var span := Span(Min(e.anchor.value, c), Max(e.anchor.value, c));
      if Width(span) > MinWidth then e.(draft := Some(span)) else e
  }

  /** `handleMouseUp`: the draft is kept for the popup, or dropped with the anchor. */
  function AfterMouseUp(e: Engine): Engine {
    if !e.isDragging then e
    else if e.draft.Some? && Width(e.draft.value) > MinWidth then e.(isDragging := false)
    else e.(isDragging := false, draft := None, anchor := None)
  }

  /** The draft `handleMouseUp` hands to `onRegionCreated`, if any. */
  function Reported(e: Engine): Option<Span> {
    if e.isDragging && e.draft.Some? && Width(e.draft.value) > MinWidth then e.draft else None
  }

  /**
   * `confirmRegion`: the draft becomes a drawn region and a map entry with a
   * fresh id and the draft's bounds; the anchor is left as it is.
   */
  function AfterConfirm(e: Engine, speakerId: string, speakerName: string): Engine {
    if e.draft.None? then e
    else
      var d := e.draft.value;
      var id := e.nextId;
      e.(draft := None,
         entries := e.entries + [Region(id, d.start, d.end, speakerId, speakerName)],
         shown := e.shown + {id},
         nextId := id + 1)
  }

  /** `cancelRegion` */
  function AfterCancel(e: Engine): Engine {
    e.(draft := None, anchor := None)
  }

  /** `clearAllRegions`: the map, the drawings and the draft go; the anchor stays. */
  function AfterClearAll(e: Engine): Engine {
    e.(entries := [], shown := {}, draft := None)
  }

  /** The `region-double-clicked` handler: the map entry and the drawing go. */
  function AfterDoubleClick(e: Engine, id: RegionId): Engine {
    e.(entries := DeleteRegion(e.entries, id), shown := e.shown - {id})
  }

  /** `remove()` on the region object `getRegionById` returned: only the drawing goes. */
  function AfterRemoveDrawing(e: Engine, id: RegionId): Engine {
    e.(shown := e.shown - {id})
  }

  /**
   * A render of the viewer. `onRegionCreated` is a new function on every
   * render, so the setup effect's cleanup destroys the WaveSurfer instance
   * and its regions plugin and the effect builds fresh ones: every drawing
   * is gone, while the refs (drag state, draft, map, counter) survive.
   */
  function AfterRender(e: Engine): Engine {
    e.(shown := {})
  }

  // ---------------------------------------------------------------------
  // The hook as an object

  class Waveform {
    /** The audio length, in hundredths of a second. */
    const duration: nat
    var isDragging: bool
    var anchor: Option<int>
    var draft: Option<Span>
    var entries: seq<Region>
    var shown: set<RegionId>
    var nextId: RegionId

    function State(): Engine
      reads this
    {
      Engine(isDragging, anchor, draft, entries, shown, nextId)
    }

    constructor (duration: nat)
      ensures this.duration == duration && State() == Idle() && Valid(State())
    {
      this.duration := duration;
      isDragging := false;
      anchor := None;
      draft := None;
      entries := [];
      shown := {};
      nextId := 0;
    }

    method MouseDown(t: int, onRegion: bool)
      modifies this
      ensures State() == AfterMouseDown(old(State()), t, onRegion)
      ensures Valid(old(State())) ==> Valid(State())
    {
      if Valid(State()) {
        PointerStepsPreserveValid(State(), duration, t, onRegion, 0);
      }
      if onRegion {
        return;
      }
      if draft.Some? {
        return;
      }
      isDragging := true;
      anchor := Some(t);
    }

    method MouseMove(t: int)
      modifies this
      ensures State() == AfterMouseMove(old(State()), duration, t)
      ensures Valid(old(State())) ==> Valid(State())
    {
      if Valid(State()) {
        PointerStepsPreserveValid(State(), duration, t, false, 0);
      }
      if !isDragging || anchor.None? || anchor.value == 0 {
        return;
      }
      var current := if t < 0 then 0 else if t > duration then duration else t;
      var start := if anchor.value <= current then anchor.value else current;
      var end := if anchor.value >= current then anchor.value else current;
      if end - start > MinWidth {
        draft := Some(Span(start, end));
      }
    }

    /** Returns the draft passed to `onRegionCreated`, if the gesture produced one. */
    method MouseUp() returns (created: Option<Span>)
      modifies this
      ensures State() == AfterMouseUp(old(State())) && created == Reported(old(State()))
      ensures Valid(old(State())) ==> Valid(State())
    {
      if Valid(State()) {
        PointerStepsPreserveValid(State(), duration, 0, false, 0);
      }
      created := None;
      if !isDragging {
        return;
      }
      isDragging := false;
      if draft.Some? && draft.value.end - draft.value.start > MinWidth {
        created := draft;
      } else {
        draft := None;
        anchor := None;
      }
    }

    /** `speakerColor` only colours the drawing. */
    method ConfirmRegion(speakerId: string, speakerName: string, speakerColor: string) returns (success: bool)
      modifies this
      ensures State() == AfterConfirm(old(State()), speakerId, speakerName)
      ensures success <==> old(draft).Some?
      ensures Valid(old(State())) ==> Valid(State())
    {
      if Valid(State()) {
        ConfirmPreservesValid(State(), speakerId, speakerName);
      }
      if draft.None? {
        return false;
      }
      var start := draft.value.start;
      var end := draft.value.end;
      draft := None;
      var regionId := nextId;
      nextId := nextId + 1;
      shown := shown + {regionId};
      entries := entries + [Region(regionId, start, end, speakerId, speakerName)];
      return true;
    }

    method CancelRegion()
      modifies this
      ensures State() == AfterCancel(old(State()))
      ensures Valid(old(State())) ==> Valid(State())
    {
      if Valid(State()) {
        PointerStepsPreserveValid(State(), duration, 0, false, 0);
      }
      draft := None;
      anchor := None;
    }

    /** The map's records in insertion order; nothing changes. */
    method GetRegions() returns (regions: seq<Region>)
      ensures regions == entries
      ensures forall r :: r in regions <==> r in entries
    {
      regions := entries;
    }

    method ClearAllRegions()
      modifies this
      ensures State() == AfterClearAll(old(State()))
      ensures Valid(old(State())) ==> Valid(State())
    {
      if Valid(State()) {
        PointerStepsPreserveValid(State(), duration, 0, false, 0);
      }
      entries := [];
      draft := None;
      shown := {};
    }

    /** The record for an id, standing in for the plugin's region object; `None` for an unknown id. */
    method GetRegionById(id: RegionId) returns (region: Option<Region>)
      ensures region.None? <==> id !in Ids(entries)
      ensures region.Some? ==> region.value in entries && region.value.id == id
    {
      region := Lookup(entries, id);
    }

    method RegionDoubleClicked(id: RegionId)
      modifies this
      ensures State() == AfterDoubleClick(old(State()), id)
      ensures Valid(old(State())) ==> Valid(State())
    {
      if Valid(State()) {
        DoubleClickPreservesValid(State(), id);
      }
      entries := DeleteRegion(entries, id);
      shown := shown - {id};
    }

    method RemoveDrawing(id: RegionId)
      modifies this
      ensures State() == AfterRemoveDrawing(old(State()), id)
      ensures Valid(old(State())) ==> Valid(State())
    {
      if Valid(State()) {
        PointerStepsPreserveValid(State(), duration, 0, false, id);
      }
      shown := shown - {id};
    }
  }

  // ---------------------------------------------------------------------
  // Properties of the steps

  /** A mousedown on a region, or while a draft exists, changes nothing: there is never a second draft. */
  lemma MouseDownWithDraftIgnored(e: Engine, t: int, onRegion: bool)
    requires onRegion || e.draft.Some?
    ensures AfterMouseDown(e, t, onRegion) == e
  {
  }

  /** Without a drag under way, or with an anchor of exactly 0, moving the pointer changes nothing. */
  lemma ZeroAnchorNeverDraws(e: Engine, duration: nat, t: int)
    requires !e.isDragging || e.anchor == None || e.anchor == Some(0)
    ensures AfterMouseMove(e, duration, t) == e
  {
  }

  /**
   * A mousemove changes at most the draft. A new draft spans from the anchor
   * to the clamped pointer time and is wider than 0.1 s; otherwise the old
   * draft stays.
   */
  lemma MouseMoveDraft(e: Engine, duration: nat, t: int)
    ensures var e' := AfterMouseMove(e, duration, t);
      && e'.(draft := e.draft) == e
      && (e'.draft == e.draft
          || (&& e.isDragging && e.anchor.Some? && e.anchor.value != 0
              && e'.draft.Some?
              && var c := Clamp(t, duration); var a := e.anchor.value; var s := e'.draft.value;
              && 0 <= c <= duration
              && s.start == Min(a, c) && s.end == Max(a, c)
              && s.start <= a <= s.end && s.start <= c <= s.end
              && Width(s) > MinWidth))
  {
  }

  /**
   * A mouseup ends the drag. A draft wider than 0.1 s is reported and kept;
   * otherwise the draft and the anchor are cleared and nothing is reported.
   */
  lemma MouseUpEffect(e: Engine)
    ensures var e' := AfterMouseUp(e);
      && !e'.isDragging && e'.entries == e.entries && e'.shown == e.shown
      && (!e.isDragging ==> e' == e && Reported(e).None?)
      && (e.isDragging && e.draft.Some? && Width(e.draft.value) > MinWidth ==>
            Reported(e) == e.draft && e'.draft == e.draft && e'.anchor == e.anchor)
      && (e.isDragging && !(e.draft.Some? && Width(e.draft.value) > MinWidth) ==>
            Reported(e).None? && e'.draft.None? && e'.anchor.None?)
  {
  }

  /** Confirming without a draft changes nothing. */
  lemma ConfirmWithoutDraft(e: Engine, speakerId: string, speakerName: string)
    requires e.draft.None?
    ensures AfterConfirm(e, speakerId, speakerName) == e
  {
  }

  /**
   * Confirming a draft clears it and adds exactly one map entry, at the end,
   * with an id not in use and the draft's bounds and the given speaker.
   */
  lemma ConfirmAddsOne(e: Engine, speakerId: string, speakerName: string)
    requires Valid(e) && e.draft.Some?
    ensures var e' := AfterConfirm(e, speakerId, speakerName); var n := |e.entries|;
      && e'.draft.None?
      && |e'.entries| == n + 1 && e'.entries[..n] == e.entries
      && e'.entries[n] == Region(e.nextId, e.draft.value.start, e.draft.value.end, speakerId, speakerName)
      && e.nextId !in Ids(e.entries)
      && Ids(e'.entries) == Ids(e.entries) + {e.nextId}
      && e'.shown == e.shown + {e.nextId}
  {
    var e' := AfterConfirm(e, speakerId, speakerName);
    assert e'.entries[..|e.entries|] == e.entries;
  }

  /** A double click removes the id from the map and the drawing and keeps the other entries in order. */
  lemma DoubleClickRemoves(e: Engine, id: RegionId)
    ensures var e' := AfterDoubleClick(e, id);
      && id !in Ids(e'.entries) && id !in e'.shown
      && (forall r :: r in e'.entries <==> r in e.entries && r.id != id)
      && (id !in Ids(e.entries) ==> e'.entries == e.entries)
  {
    DeleteRegionIdempotent(e.entries, id);
    DeleteRegionMembers(e.entries, id);
    if id !in Ids(e.entries) {
      DeleteRegionAbsent(e.entries, id);
    }
  }

  lemma DeleteRegionIdsSubset(rs: seq<Region>, id: RegionId)
    ensures Ids(DeleteRegion(rs, id)) == Ids(rs) - {id}
  {
    DeleteRegionMembers(rs, id);
  }

  lemma ConfirmPreservesValid(e: Engine, speakerId: string, speakerName: string)
    requires Valid(e)
    ensures Valid(AfterConfirm(e, speakerId, speakerName))
  {
    if e.draft.Some? {
      ConfirmAddsOne(e, speakerId, speakerName);
      var e' := AfterConfirm(e, speakerId, speakerName);
      forall i, j | 0 <= i < j < |e'.entries|
        ensures e'.entries[i].id != e'.entries[j].id
      {
        if j == |e.entries| {
          assert e'.entries[i] == e.entries[i];
        }
      }
    }
  }

  lemma DoubleClickPreservesValid(e: Engine, id: RegionId)
    requires Valid(e)
    ensures Valid(AfterDoubleClick(e, id))
  {
    var d := DeleteRegion(e.entries, id);
    DeleteRegionDistinct(e.entries, id);
    DeleteRegionIdsSubset(e.entries, id);
    DeleteRegionMembers(e.entries, id);
    forall i | 0 <= i < |d|
      ensures d[i].id < e.nextId && d[i].end - d[i].start > MinWidth
    {
      assert d[i] in e.entries;
    }
  }

  /** The pointer handlers, cancel, clear and removing a drawing keep the engine valid. */
  lemma PointerStepsPreserveValid(e: Engine, duration: nat, t: int, onRegion: bool, id: RegionId)
    requires Valid(e)
    ensures Valid(AfterMouseDown(e, t, onRegion))
    ensures Valid(AfterMouseMove(e, duration, t))
    ensures Valid(AfterMouseUp(e))
    ensures Valid(AfterCancel(e))
    ensures Valid(AfterClearAll(e))
    ensures Valid(AfterRemoveDrawing(e, id))
  {
    assert Valid(AfterMouseDown(e, t, onRegion));
    assert Valid(AfterMouseMove(e, duration, t));
    assert Valid(AfterMouseUp(e));
    assert Valid(AfterCancel(e));
    assert Valid(AfterClearAll(e));
  }

  /**
   * A whole gesture from a state with no draft: press at a non-zero time `a`,
   * drag to `t`, release. When the clamped pointer is more than 0.1 s from
   * `a`, the span between them is reported and, once confirmed, becomes the
   * last map entry.
   */
  lemma DragGesture(e: Engine, duration: nat, a: int, t: int, speakerId: string, speakerName: string)
    requires Valid(e) && e.draft.None? && a != 0
    requires var c := Clamp(t, duration); Max(a, c) - Min(a, c) > MinWidth
    ensures var c := Clamp(t, duration);
      var up := AfterMouseUp(AfterMouseMove(AfterMouseDown(e, a, false), duration, t));
      var span := Span(Min(a, c), Max(a, c));
      && Reported(AfterMouseMove(AfterMouseDown(e, a, false), duration, t)) == Some(span)
      && AfterConfirm(up, speakerId, speakerName).entries
         == e.entries + [Region(e.nextId, span.start, span.end, speakerId, speakerName)]
  {
  }
}
