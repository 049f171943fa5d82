/**
 * The session state of `src/App.jsx`: the loaded audio file, the region list
 * shown beside the waveform, the region being looped and the counter that
 * names saved samples. The waveform handle (`waveformRef.current`) is passed
 * to each handler and is `null` before a file is shown.
 */
module App {
  import opened Wrappers
  import opened Text
  import opened Model
  import opened RttmExporter
  import opened WaveSurferHook

  /** The loaded audio file; only its name is read. */
  datatype AudioFile = AudioFile(name: string)

  /** The two downloads of a save: the RTTM text under its name, and the audio under its name. */
  datatype SavedFiles = SavedFiles(rttmName: string, rttm: string, wavName: string)

  /** The waveform's regions that carry a speaker id (`!!region.speakerId`), in the same order. */
  function Labelled(all: seq<Region>): seq<Region> {
    if all == [] then []
    else Labelled(all[..|all| - 1]) + (if all[|all| - 1].speakerId != [] then [all[|all| - 1]] else [])
  }

  /** The looped region after a click on `id`: the same id stops the loop, another one starts it. */
  function NextLooping(looping: Option<RegionId>, id: RegionId): Option<RegionId> {
    if looping == Some(id) then None else Some(id)
  }

  /** The looped region after deleting `id`. */
  function LoopingAfterDelete(looping: Option<RegionId>, id: RegionId): Option<RegionId> {
    if looping == Some(id) then None else looping
  }

  /** `sample${fileIndex}` */
  function SampleName(fileIndex: nat): string {
    "sample" + NatToString(fileIndex)
  }

  /**
   * Whether `clearAllRegions` makes the page refresh before the map is
   * emptied: removing the drawing of a confirmed region with a speaker id
   * raises `region-removed`, whose handler calls `handleRegionsChange`.
   */
  predicate ClearNotifies(e: Engine) {
    exists r :: r in e.entries && r.id in e.shown && r.speakerId != []
  }

  /** Whether removing the drawing of `id` makes the page refresh. */
  predicate DeleteNotifies(e: Engine, id: RegionId) {
    var r := Lookup(e.entries, id);
    r.Some? && id in e.shown && r.value.speakerId != []
  }

  class Session {
    var audioFile: Option<AudioFile>
    var fileName: string
    var fileIndex: nat
    var regions: seq<Region>
    var loopingRegionId: Option<RegionId>

    constructor ()
      ensures audioFile.None? && fileName == [] && fileIndex == 1
      ensures regions == [] && loopingRegionId.None?
    {
      audioFile := None;
      fileName := [];
      fileIndex := 1;
      regions := [];
      loopingRegionId := None;
    }

    /** `handleFileLoad`: the waveform's own records are not touched. */
    method HandleFileLoad(file: AudioFile)
      modifies this
      ensures audioFile == Some(file) && fileName == file.name && regions == []
      ensures fileIndex == old(fileIndex) && loopingRegionId == old(loopingRegionId)
    {
      audioFile := Some(file);
      fileName := file.name;
      regions := [];
    }

    /** `handleRegionsChange`: re-reads the confirmed regions from the waveform. */
    method HandleRegionsChange(wave: Waveform?)
      modifies this
      ensures wave == null ==> regions == old(regions)
      ensures wave != null ==> regions == Labelled(wave.entries)
      ensures audioFile == old(audioFile) && fileName == old(fileName)
      ensures fileIndex == old(fileIndex) && loopingRegionId == old(loopingRegionId)
    {
      if wave == null {
        return;
      }
      var all := wave.GetRegions();
      var current: seq<Region> := [];
      for i := 0 to |all|
        invariant current == Labelled(all[..i])
      {
        assert all[..i + 1][..i] == all[..i];
        if all[i].speakerId != [] {
          current := current + [all[i]];
        }
      }
      assert all[..|all|] == all;
      regions := current;
    }

    /**
     * `handlePlayRegion`: does something only when the handle offers
     * `playRegionLoop` (`canLoop`).
     */
    method HandlePlayRegion(id: RegionId, wave: Waveform?, canLoop: bool)
      modifies this
      ensures loopingRegionId == if wave != null && canLoop then NextLooping(old(loopingRegionId), id) else old(loopingRegionId)
      ensures regions == old(regions) && fileIndex == old(fileIndex)
      ensures audioFile == old(audioFile) && fileName == old(fileName)
    {
      if wave != null && canLoop {
        if loopingRegionId == Some(id) {
          loopingRegionId := None;
        } else {
          loopingRegionId := Some(id);
        }
      }
    }

    /**
     * `handleDeleteRegion`: stops the loop on that region and removes its
     * drawing; the waveform's record and this session's list keep it.
     */
    method HandleDeleteRegion(id: RegionId, wave: Waveform?)
      modifies this, wave
      ensures loopingRegionId == LoopingAfterDelete(old(loopingRegionId), id)
      ensures wave != null && id in Ids(old(wave.entries)) ==> wave.State() == AfterRemoveDrawing(old(wave.State()), id)
      ensures wave != null && id !in Ids(old(wave.entries)) ==> wave.State() == old(wave.State())
      ensures regions == if wave != null && DeleteNotifies(old(wave.State()), id) then Labelled(old(wave.entries)) else old(regions)
      ensures fileIndex == old(fileIndex)
      ensures audioFile == old(audioFile) && fileName == old(fileName)
    {
      if loopingRegionId == Some(id) {
        loopingRegionId := None;
      }
      if wave != null {
        var region := wave.GetRegionById(id);
        if region.Some? {
          var notifies := DeleteNotifies(wave.State(), id);
          wave.RemoveDrawing(id);
          if notifies {
            // `region-removed` runs `handleRegionsChange` inside `remove()`
            HandleRegionsChange(wave);
          }
        }
      }
    }

    /**
     * `handleSave`: with regions, writes `sample<fileIndex>.rttm` and
     * `sample<fileIndex>.wav`, advances the counter by one, empties the list
     * and then clears the waveform. Clearing removes the drawings while the
     * map is still full, so when a labelled region is still drawn its
     * `region-removed` refresh runs after `setRegions([])` and puts the saved
     * regions back in the list. With no regions, nothing happens.
     */
    method HandleSave(wave: Waveform?, speakers: seq<Speaker>) returns (saved: Option<SavedFiles>)
      modifies this, wave
      ensures old(regions) == [] ==> saved.None? && regions == old(regions) && fileIndex == old(fileIndex)
      ensures old(regions) == [] && wave != null ==> wave.State() == old(wave.State())
      ensures old(regions) != [] ==>
        var name := SampleName(old(fileIndex));
        && saved == Some(SavedFiles(name + ".rttm", GenerateRTTM(name, old(regions), speakers), name + ".wav"))
        && fileIndex == old(fileIndex) + 1
        && regions == (if wave != null && ClearNotifies(old(wave.State())) then Labelled(old(wave.entries)) else [])
        && (wave != null ==> wave.State() == AfterClearAll(old(wave.State())))
      ensures audioFile == old(audioFile) && fileName == old(fileName) && loopingRegionId == old(loopingRegionId)
    {
      if regions == [] {
        return None;
      }
      var filename := SampleName(fileIndex);
      var rttmContent := GenerateRTTM(filename, regions, speakers);
      saved := Some(SavedFiles(filename + ".rttm", rttmContent, filename + ".wav"));
      fileIndex := fileIndex + 1;
      regions := [];
      if wave != null {
        if ClearNotifies(wave.State()) {
          // `region-removed` runs `handleRegionsChange` before `map.clear()`
          HandleRegionsChange(wave);
        }
        wave.ClearAllRegions();
      }
    }

    /**
     * `handleClearAll`: `confirmed` is the user's answer to the dialog. The
     * waveform is cleared first, so the list ends empty whatever the
     * `region-removed` refreshes put in it.
     */
    method HandleClearAll(confirmed: bool, wave: Waveform?)
      modifies this, wave
      ensures !confirmed ==> regions == old(regions) && (wave != null ==> wave.State() == old(wave.State()))
      ensures confirmed ==> regions == [] && (wave != null ==> wave.State() == AfterClearAll(old(wave.State())))
      ensures fileIndex == old(fileIndex) && loopingRegionId == old(loopingRegionId)
      ensures audioFile == old(audioFile) && fileName == old(fileName)
    {
      if confirmed {
        if wave != null {
          if ClearNotifies(wave.State()) {
            HandleRegionsChange(wave);
          }
          wave.ClearAllRegions();
        }
        regions := [];
      }
    }
  }

  // ---------------------------------------------------------------------
  // Properties

  /** The list keeps exactly the waveform regions with a speaker id. */
  lemma {:induction false} LabelledMembers(all: seq<Region>)
    ensures forall r :: r in Labelled(all) <==> r in all && r.speakerId != []
  {
    if all != [] {
      var init := all[..|all| - 1];
      LabelledMembers(init);
      assert all == init + [all[|all| - 1]];
    }
  }

  /** The kept regions stay in waveform order. */
  lemma {:induction false} LabelledAppend(a: seq<Region>, b: seq<Region>)
    ensures Labelled(a + b) == Labelled(a) + Labelled(b)
  {
    if b == [] {
      assert a + b == a;
    } else {
      var init := b[..|b| - 1];
      var last := b[|b| - 1];
      var tail := if last.speakerId != [] then [last] else [];
      LabelledAppend(a, init);
      assert (a + b)[..|a + b| - 1] == a + init;
      assert (a + b)[|a + b| - 1] == last;
      assert Labelled(a + b) == Labelled(a + init) + tail;
      assert Labelled(b) == Labelled(init) + tail;
    }
  }

  /**
   * Clicking the same region twice: from a loop on that region it comes back
   * to that region, from any other state it ends with no loop.
   */
  lemma LoopToggleTwice(looping: Option<RegionId>, id: RegionId)
    ensures NextLooping(NextLooping(looping, id), id) == if looping == Some(id) then looping else None
    ensures NextLooping(looping, id) == None <==> looping == Some(id)
  {
  }

  /** Deleting the looped region stops the loop; deleting another leaves it. */
  lemma DeleteStopsOnlyItsLoop(looping: Option<RegionId>, id: RegionId)
    ensures looping == Some(id) ==> LoopingAfterDelete(looping, id).None?
    ensures looping != Some(id) ==> LoopingAfterDelete(looping, id) == looping
  {
  }

  /** Different counter values give different sample names, so saves never reuse a name. */
  lemma SampleNamesDistinct(m: nat, n: nat)
    requires m != n
    ensures SampleName(m) != SampleName(n)
  {
    if SampleName(m) == SampleName(n) {
      assert NatToString(m) == SampleName(m)[6..];
      assert NatToString(n) == SampleName(n)[6..];
      NatToStringInjective(m, n);
    }
  }

  /**
   * Saving while a labelled region is still drawn leaves that region in the
   * list: the refresh that clearing triggers reads the map before it is
   * emptied, and it runs after the list was set to empty.
   */
  lemma SaveKeepsDrawnRegion(e: Engine, r: Region)
    requires r in e.entries && r.id in e.shown && r.speakerId != []
    ensures ClearNotifies(e)
    ensures r in Labelled(e.entries)
  {
    LabelledMembers(e.entries);
  }

  /**
   * After a render nothing is drawn, so neither clearing nor removing one
   * drawing raises `region-removed` on a live plugin: the list is left as
   * the handler set it.
   */
  lemma RenderSilencesRemovals(e: Engine, id: RegionId)
    ensures !ClearNotifies(AfterRender(e)) && !DeleteNotifies(AfterRender(e), id)
    ensures Valid(e) ==> Valid(AfterRender(e))
  {
  }

  /**
   * Confirming a labelled draft draws it, so clearing straight after would
   * refresh the list; but the popup closing re-renders the viewer first, and
   * after that render a save leaves the list empty.
   */
  lemma ConfirmThenRenderSilencesSave(e: Engine, speakerId: string, speakerName: string)
    requires Valid(e) && e.draft.Some? && speakerId != []
    ensures ClearNotifies(AfterConfirm(e, speakerId, speakerName))
    ensures !ClearNotifies(AfterRender(AfterConfirm(e, speakerId, speakerName)))
  {
    var e' := AfterConfirm(e, speakerId, speakerName);
    var r := e'.entries[|e'.entries| - 1];
    assert r in e'.entries && r.id in e'.shown && r.speakerId != [];
    RenderSilencesRemovals(e', r.id);
  }

  /**
   * Deleting from the list only removes the drawing: the waveform's record
   * stays, so the next `handleRegionsChange` lists the region again.
   */
  lemma DeletedRegionComesBack(e: Engine, id: RegionId)
    requires exists r :: r in e.entries && r.id == id && r.speakerId != []
    ensures id in Ids(Labelled(AfterRemoveDrawing(e, id).entries))
  {
    var r :| r in e.entries && r.id == id && r.speakerId != [];
    LabelledMembers(e.entries);
    assert r in Labelled(AfterRemoveDrawing(e, id).entries);
  }
}
