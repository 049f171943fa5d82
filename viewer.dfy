/**
 * The popup flow of `src/components/WaveformViewer.jsx`: a finished drag
 * hands its draft to the viewer, which keeps it as the pending region and
 * opens the speaker popup; choosing a speaker confirms the draft with that
 * speaker, and cancelling discards it.
 */
module WaveformViewer {
  import opened Wrappers
  import opened Model
  import opened WaveSurferHook
  import opened Overlaps

  /** The popup's screen position (pixels, computed by the hook from the region's centre). */
  datatype Point = Point(x: int, y: int)

  class Viewer {
    const wave: Waveform
    var pending: Option<Span>     // pendingRegion
    var popup: Option<Point>      // popupPosition

    constructor (wave: Waveform)
      ensures this.wave == wave && pending.None? && popup.None?
    {
      this.wave := wave;
      pending := None;
      popup := None;
    }

    /** `handleRegionCreated`: remembers the draft and where to open the popup. */
    method HandleRegionCreated(region: Span, position: Point)
      modifies this
      ensures pending == Some(region) && popup == Some(position)
    {
      pending := Some(region);
      popup := Some(position);
    }

    /** A mouseup on the waveform, with `onRegionCreated` wired to `HandleRegionCreated`. */
    method MouseUp(position: Point)
      modifies this, wave
      ensures wave.State() == AfterMouseUp(old(wave.State()))
      ensures Reported(old(wave.State())).Some? ==>
        pending == Reported(old(wave.State())) && popup == Some(position)
      ensures Reported(old(wave.State())).None? ==>
        pending == old(pending) && popup == old(popup)
    {
      var created := wave.MouseUp();
      if created.Some? {
        HandleRegionCreated(created.value, position);
      }
    }

    /**
     * `handleSpeakerSelect`: only a speaker on the roster, with a region
     * pending, confirms the draft; the popup then closes whatever the outcome,
     * and `onRegionsChange` is called (`notified`) only when the confirmation
     * succeeded.
     */
    method HandleSpeakerSelect(speakerId: string, speakers: seq<Speaker>) returns (notified: bool)
      modifies this, wave
      ensures var found := FindSpeaker(speakers, speakerId);
        if found.Some? && old(pending).Some? then
          && wave.State() == AfterConfirm(old(wave.State()), speakerId, found.value.name)
          && pending.None? && popup.None?
          && (notified <==> old(wave.draft).Some?)
        else
          && wave.State() == old(wave.State())
          && pending == old(pending) && popup == old(popup)
          && !notified
    {
      var speaker := FindSpeaker(speakers, speakerId);
      notified := false;
      if speaker.Some? && pending.Some? {
        var success := wave.ConfirmRegion(speakerId, speaker.value.name, speaker.value.color);
        popup := None;
        pending := None;
        notified := success;
      }
    }

    /** `handleCancelPopup`: discards the draft and closes the popup. */
    method HandleCancelPopup()
      modifies this, wave
      ensures wave.State() == AfterCancel(old(wave.State()))
      ensures pending.None? && popup.None?
    {
      wave.CancelRegion();
      popup := None;
      pending := None;
    }

    /** The overlaps drawn under the waveform, from the confirmed regions. */
    method CurrentOverlaps() returns (overlaps: seq<Overlap>)
      ensures overlaps == AllOverlaps(wave.entries)
    {
      var confirmed := wave.GetRegions();
      overlaps := FindOverlaps(confirmed);
    }
  }
}
