# diarize-label: region labelling engine in Dafny

This project models the core of the diarize-label tool. A user loads an audio
file, drags across its waveform to draw a grey draft region, picks a speaker
in a popup to confirm the draft as a labelled region, and saves the labelled
regions as RTTM text. RTTM is the record layout of Appendix A of the NIST RT-09
Rich Transcription Meeting Recognition Evaluation Plan. The model covers:

- **RTTM codec** (`rttm_parser.dfy`, `rttm_exporter.dfy`, `rttm_roundtrip.dfy`).
  `generateRTTM` writes a stable start-sorted copy as nine-field `SPEAKER` lines.
  `parseRTTM` reads back every line that has at least eight fields and starts
  with `SPEAKER`. `mapSpeakersToRegions` and `extractSpeakerIds` are modelled
  too. The round trip is proved: export then parse gives the regions sorted by
  start.
- **Draft/confirmed region engine** of `useWaveSurfer` (`wavesurfer.dfy`).
  This is the class `Waveform`, with the drag flag, the drag anchor, at most
  one draft, and the confirmed-region map in insertion order. Each handler is
  tied to a step function over an `Engine` value, and lemmas prove the
  handlers' properties and the preserved invariant.
- **Overlap detection and popup flow** of `WaveformViewer` (`overlaps.dfy`,
  `viewer.dfy`).
- **Session handlers** of `App` (`session.dfy`): file load, region refresh,
  loop toggle, delete, save counter and clear-all.
- **Region list and speaker roster stores** (`region_store.dfy`,
  `speakers.dfy`).
- **String helpers** (`filesystem.dfy`, `audio_time.dfy`): extension
  stripping, save paths, the audio-file filter and sort, completed-file names,
  and `formatTime`.
- **Shared support**: `text.dfy` (JavaScript `trim`, `split`, `join`,
  `padStart`, `toLowerCase`, `replace`, `String(n)`), `decimal.dfy`
  (`toFixed(2)` and a reader for two-decimal numbers), `model.dfy` (records)
  and `wrappers.dfy` (`Option`).

Times are integers counting hundredths of a second. So 0.1 s is `MinWidth = 10`,
`toFixed(2)` is exact, and reading a two-decimal field back is exact too.
Region ids come from a counter (`nextId`, or `firstId + i` on import). They
stand in for the ids the source builds from the clock and a random number.

The model follows the code where it departs from the intended design:

- `getRegions` returns regions in map insertion order, not sorted by start.
- `confirmRegion` does not re-check the minimum width. It does not need to,
  because a draft only exists once it is wider than 0.1 s (`Valid`).
- Map entries keep the bounds they had when confirmed, even after a region is
  resized on screen.
- `handleDeleteRegion` never changes the list itself and removes only the
  drawing. The map entry stays, so any later refresh lists the region again
  (`App.DeletedRegionComesBack`).
- Every render of the viewer destroys the waveform and its regions plugin
  and builds new ones, because `onRegionCreated` is a new function on each
  render. No drawing survives a render (`WaveSurferHook.AfterRender`), and
  the popup closing after a confirmation is such a render. So in the running
  program a save ends with an empty list, and a list delete leaves the list
  as it was (`App.RenderSilencesRemovals`,
  `App.ConfirmThenRenderSilencesSave`). The handlers themselves are modelled
  on the drawings the engine holds: if a labelled region were still drawn,
  clearing would refresh the list from the still-full map
  (`App.SaveKeepsDrawnRegion`). `handleClearAll` clears first and ends empty
  either way.
- Deleting a speaker never empties a roster with distinct ids, but ids can
  repeat after a delete and an add, and then a delete can empty it
  (`Speakers.ReachableEmptyRoster`).
- The loop boundary watcher and resize validation do not exist in this code
  (see Left out).

## Model

| member | source | states |
|---|---|---|
| `RttmParser.ParseRTTM` | src/utils/rttmParser.js:7-37 | the loop pushes exactly the line-by-line decoding `Parse` of the trimmed text, in line order; empty text gives no regions |
| `RttmParser.DecodeLine` | src/utils/rttmParser.js:16-33 | a line pushes a region exactly when it is not skipped, has at least 8 fields, field 0 is `SPEAKER` and fields 3 and 4 read as numbers; the region starts at field 3, ends at field 3 + field 4 and has field 7 as speaker id and name |
| `RttmParser.ParseLinesAppend` | src/utils/rttmParser.js:15-34 | lines decode independently: the regions of a concatenation are the concatenation of the regions, so output order follows line order |
| `RttmParser.SkippedLineIsInert` | src/utils/rttmParser.js:21-25 | a line that yields nothing (blank, comment, short, not `SPEAKER`, non-numeric time) leaves the regions of the other lines unchanged |
| `RttmParser.ParseLineShape` | src/utils/rttmParser.js:18-31 | a line yields a region only if it is not skipped, has at least 8 fields and field 0 is `SPEAKER`; start is field 3, end is start + field 4, speakerId and speakerName are field 7 |
| `RttmParser.SkippedLinesYieldNothing` | src/utils/rttmParser.js:16 | all-white-space lines and lines whose untrimmed first character is `#` yield no region |
| `RttmParser.MapSpeakersToRegions` | src/utils/rttmParser.js:42-52 | same length and order; start, end and speakerId are kept; the name is resolved against the roster; each region gets a fresh, distinct id |
| `RttmParser.DisplayName` | src/utils/rttmParser.js:44-47 | the name is the roster name when the id is found with a non-empty name, otherwise the id itself |
| `RttmParser.DedupIsFirstAppearances` | src/utils/rttmParser.js:59-65 | the insertion-ordered set holds every speaker id exactly once, invents none, and keeps first-appearance order |
| `RttmParser.ExtractSpeakerIds` | src/utils/rttmParser.js:57-66 | returns distinct ids, exactly those of the parsed regions, in first-appearance order |
| `Decimal.Fixed2` | src/utils/rttmExporter.js:7 | `toFixed(2)` writes an optional minus sign (exactly for negatives), digits, a point and two digits |
| `Decimal.ParseFixed2` | src/utils/rttmExporter.js:7 | the field reader gives back exactly the hundredths that `toFixed(2)` wrote, negatives included |
| `RttmExporter.SortByStartSorted` | src/utils/rttmExporter.js:2 | the sorted copy is in ascending start order |
| `RttmExporter.SortByStartPermutes` | src/utils/rttmExporter.js:2 | the sorted copy is a permutation of the input |
| `RttmExporter.SortByStartStable` | src/utils/rttmExporter.js:2 | regions with equal starts keep their input order |
| `RttmExporter.SortByStartLength` | src/utils/rttmExporter.js:2 | the sorted copy has as many regions as the input |
| `RttmExporter.GenerateEmptyIff` | src/utils/rttmExporter.js:4-10 | the text is empty exactly when there are no regions |
| `RttmExporter.OneLinePerRegion` | src/utils/rttmExporter.js:4-10 | split on line feeds, the text has exactly one record line per region, in start order, with no trailing empty line |
| `RttmExporter.GenerateIgnoresRoster` | src/utils/rttmExporter.js:5-7 | the roster argument does not affect the text |
| `RttmExporter.ExampleRecord` | src/utils/rttmExporter.js:6-7 | a region at 1.5 s lasting 2.25 s is written as `SPEAKER meeting 1 1.50 2.25 <NA> <NA> speaker_0 <NA>` |
| `RttmExporter.RecordLineAvoidsNewline` | src/utils/rttmExporter.js:7 | a record line has no line feed when the file name and speaker id have none |
| `RttmRoundTrip.ParseRecordLine` | src/utils/rttmParser.js:18-31 | one exported record line parses back to the region's start, end and speaker id |
| `RttmRoundTrip.ExportedLines` | src/utils/rttmExporter.js:10 | the exported text has nothing to trim and splits into the record lines of the sorted regions |
| `RttmRoundTrip.ExportedSplit` | src/utils/rttmExporter.js:10 | with single-word names, splitting the exported text at line feeds gives one record line per sorted region |
| `RttmRoundTrip.ExportedTrimmed` | src/utils/rttmExporter.js:10 | non-empty exported text starts with `S` and ends with `>`, so trimming leaves it unchanged |
| `RttmRoundTrip.RoundTrip` | src/utils/rttmExporter.js:1-11 | for whitespace-free file name and speaker ids, parsing the exported text gives the regions sorted by start (stable), with their bounds and speaker ids |
| `RttmRoundTrip.ImportAfterExport` | src/utils/rttmParser.js:42-52 | export, parse and roster mapping give one region per input region, in start order, with bounds, speaker id and the roster display name |
| `Overlaps.FindOverlaps` | src/components/WaveformViewer.jsx:87-110 | the nested loops return exactly `AllOverlaps`, one record per meeting pair in visiting order |
| `Overlaps.OverlapPairsIff` | src/components/WaveformViewer.jsx:90-99 | pair (i, j) is reported iff i < j < n and max(starts) < min(ends); no region is paired with itself |
| `Overlaps.TouchingDoNotMeet` | src/components/WaveformViewer.jsx:96-99 | intervals that only touch yield no overlap |
| `Overlaps.OverlapPairsOrdered` | src/components/WaveformViewer.jsx:90-91 | pairs come in strictly increasing (i, j) order, so each unordered pair appears at most once |
| `Overlaps.OverlapCount` | src/components/WaveformViewer.jsx:88-109 | at most n(n-1)/2 overlaps |
| `Overlaps.OverlapRecordsSound` | src/components/WaveformViewer.jsx:96-104 | each record starts at the later start, ends at the earlier end, is non-empty, lies inside both regions and names them in list order |
| `Overlaps.ExampleOverlaps` | src/components/WaveformViewer.jsx:87-110 | [0,1], [0.5,1.5], [1.5,2] give one overlap [0.5,1], from the first two regions |
| `Model.FindSpeaker` | src/components/WaveformViewer.jsx:37 | `find` returns the first roster entry with that id (no earlier entry has it), and returns nothing exactly when no entry has it |
| `Model.Lookup` | src/hooks/useWaveSurfer.js:258-261 | the lookup returns an entry with that id, and returns nothing exactly when the id is absent |
| `WaveformViewer.Viewer.constructor` | src/components/WaveformViewer.jsx:9-10 | no region is pending and the popup is closed |
| `WaveformViewer.Viewer.HandleRegionCreated` | src/components/WaveformViewer.jsx:12-15 | the reported draft becomes pending and the popup opens at the given position |
| `WaveformViewer.Viewer.MouseUp` | src/hooks/useWaveSurfer.js:91-101 | a mouseup that reports a draft makes it pending and opens the popup; otherwise pending and popup are unchanged |
| `WaveformViewer.Viewer.HandleSpeakerSelect` | src/components/WaveformViewer.jsx:36-48 | confirms only when the id is on the roster and a region is pending; then it clears pending and popup, notifying only on success; otherwise nothing changes |
| `WaveformViewer.Viewer.HandleCancelPopup` | src/components/WaveformViewer.jsx:50-54 | cancels the draft and anchor and always clears pending and popup |
| `WaveformViewer.Viewer.CurrentOverlaps` | src/components/WaveformViewer.jsx:112-113 | the overlaps shown are those of the confirmed map entries, in insertion order |
| `WaveSurferHook.Waveform.constructor` | src/hooks/useWaveSurfer.js:12-15 | not dragging, no anchor, no draft, an empty map; the state is valid |
| `WaveSurferHook.Waveform.MouseDown` | src/hooks/useWaveSurfer.js:43-58 | ignored on a region or while a draft exists; otherwise starts dragging from the given anchor; keeps `Valid` |
| `WaveSurferHook.Waveform.MouseMove` | src/hooks/useWaveSurfer.js:60-84 | state becomes `AfterMouseMove`: the draft is replaced by [min, max] of anchor and clamped time only when wider than 0.1 s; keeps `Valid` |
| `WaveSurferHook.Waveform.MouseUp` | src/hooks/useWaveSurfer.js:86-109 | ends the drag, returns the draft that is reported, and otherwise drops draft and anchor; keeps `Valid` |
| `WaveSurferHook.Waveform.ConfirmRegion` | src/hooks/useWaveSurfer.js:163-213 | returns true iff a draft existed; state becomes `AfterConfirm` (draft cleared, one new entry with a fresh id); keeps `Valid` |
| `WaveSurferHook.Waveform.CancelRegion` | src/hooks/useWaveSurfer.js:215-222 | clears draft and anchor; map unchanged |
| `WaveSurferHook.Waveform.GetRegions` | src/hooks/useWaveSurfer.js:224-238 | returns the map's records in insertion order and changes nothing |
| `WaveSurferHook.Waveform.ClearAllRegions` | src/hooks/useWaveSurfer.js:240-256 | empties the map and the drawings and clears the draft; the anchor is kept |
| `WaveSurferHook.Waveform.GetRegionById` | src/hooks/useWaveSurfer.js:258-261 | returns nothing exactly for unknown ids, otherwise the entry with that id |
| `WaveSurferHook.Waveform.RegionDoubleClicked` | src/hooks/useWaveSurfer.js:131-135 | removes the id from the map and the drawings; keeps `Valid` |
| `WaveSurferHook.Waveform.RemoveDrawing` | src/App.jsx:67-72 | removing the region object removes only the drawing, not the map entry |
| `WaveSurferHook.MouseDownWithDraftIgnored` | src/hooks/useWaveSurfer.js:44-51 | a mousedown while a draft exists changes nothing, so there is never a second draft |
| `WaveSurferHook.ZeroAnchorNeverDraws` | src/hooks/useWaveSurfer.js:61 | without a drag, or with an anchor of exactly 0, a mousemove changes nothing |
| `WaveSurferHook.MouseMoveDraft` | src/hooks/useWaveSurfer.js:61-83 | a mousemove changes only the draft; a new draft is [min(a,c), max(a,c)] with c clamped to [0, duration] and width > 0.1 s; otherwise the old draft stays |
| `WaveSurferHook.MouseUpEffect` | src/hooks/useWaveSurfer.js:86-108 | dragging ends; a draft wider than 0.1 s is reported and kept with its anchor; otherwise draft and anchor are cleared and nothing is reported; the map is unchanged |
| `WaveSurferHook.ConfirmWithoutDraft` | src/hooks/useWaveSurfer.js:211-212 | confirming with no draft changes nothing |
| `WaveSurferHook.ConfirmAddsOne` | src/hooks/useWaveSurfer.js:166-208 | confirm clears the draft and appends exactly one entry, with an unused id, the draft's bounds and the given speaker |
| `WaveSurferHook.DoubleClickRemoves` | src/hooks/useWaveSurfer.js:131-135 | the id is gone and the other entries stay; an absent id changes no entry |
| `WaveSurferHook.ConfirmPreservesValid` | src/hooks/useWaveSurfer.js:174-202 | confirming keeps ids distinct and below the counter, and keeps every entry wider than 0.1 s |
| `WaveSurferHook.DoubleClickPreservesValid` | src/hooks/useWaveSurfer.js:131-135 | deleting by double click keeps the engine invariant |
| `WaveSurferHook.PointerStepsPreserveValid` | src/hooks/useWaveSurfer.js:43-109 | mousedown, mousemove, mouseup, cancel, clear and drawing removal keep the engine invariant |
| `WaveSurferHook.DragGesture` | src/hooks/useWaveSurfer.js:43-109 | a press at a non-zero time, a drag of more than 0.1 s and a release report the span; confirming it appends it as the last entry |
| `RegionStore.AddRegion` | src/hooks/useRegions.js:6-8 | appends the region at the end; the earlier entries are unchanged |
| `RegionStore.UpdateRegionEffect` | src/hooks/useRegions.js:10-12 | every entry with the id takes the update's fields; other entries, length and order are unchanged |
| `RegionStore.UpdateRegionAbsent` | src/hooks/useRegions.js:11 | updating an absent id changes nothing |
| `RegionStore.UpdateRegionIdempotent` | src/hooks/useRegions.js:10-12 | an update that keeps the id, applied twice, equals one application |
| `RegionStore.DeleteRegionMembers` | src/hooks/useRegions.js:14-16 | the result holds exactly the entries with another id |
| `RegionStore.DeleteRegionAppend` | src/hooks/useRegions.js:15 | filtering a concatenation filters each part, so kept entries stay in order |
| `RegionStore.DeleteRegionAbsent` | src/hooks/useRegions.js:15 | deleting an absent id changes nothing |
| `RegionStore.DeleteRegionIdempotent` | src/hooks/useRegions.js:14-16 | the id is gone afterwards, and deleting twice equals deleting once |
| `RegionStore.DeleteRegionDistinct` | src/hooks/useRegions.js:15 | deleting keeps distinct ids distinct |
| `RegionStore.ClearRegions` | src/hooks/useRegions.js:18-20 | the result is empty |
| `App.Session.constructor` | src/App.jsx:11-15 | no file, empty name, `fileIndex` 1, no regions, no loop |
| `App.Session.HandleFileLoad` | src/App.jsx:20-24 | sets the file and its name and empties `regions`; the counter and the loop are unchanged |
| `App.Session.HandleRegionsChange` | src/App.jsx:26-42 | with a handle, `regions` becomes the waveform entries with a non-empty speakerId, in order; without one nothing changes |
| `App.Session.HandlePlayRegion` | src/App.jsx:44-56 | with a looping-capable handle, the same id clears the loop and another id starts it; otherwise nothing changes |
| `App.Session.HandleDeleteRegion` | src/App.jsx:58-73 | clears the loop only for the looping id and removes only the drawing of a known region; when that drawing was shown with a speaker id, the `region-removed` refresh relists the waveform entries, which still hold the region |
| `App.Session.HandleSave` | src/App.jsx:75-95 | with no regions nothing changes; otherwise writes `sample<fileIndex>` RTTM/WAV, increments `fileIndex` by one and empties the waveform; the list ends empty unless the engine still holds a labelled drawing, in which case the refresh run during clearing leaves the old labelled entries listed (after a render none is held; see Left out) |
| `App.Session.HandleClearAll` | src/App.jsx:97-104 | when confirmed, empties the waveform and then the list, so the list ends empty whatever the clearing refreshes did; otherwise nothing changes |
| `App.RenderSilencesRemovals` | src/hooks/useWaveSurfer.js:139-142 | after a render, which drops every drawing, neither clearing nor a single removal triggers a refresh, and the engine invariant still holds |
| `App.ConfirmThenRenderSilencesSave` | src/components/WaveformViewer.jsx:36-48 | a confirmed labelled draft is drawn, so clearing would refresh the list; after the render that closing the popup causes, clearing triggers no refresh and a save ends with an empty list |
| `App.SaveKeepsDrawnRegion` | src/App.jsx:90-94 | on an engine that still holds a labelled drawing at save time, clearing refreshes the list and that region is among those listed afterwards (after a render none is held; see Left out) |
| `App.LabelledMembers` | src/App.jsx:30-31 | the refreshed list holds exactly the entries with a non-empty speaker id |
| `App.LabelledAppend` | src/App.jsx:30-38 | the filter keeps waveform order |
| `App.LoopToggleTwice` | src/App.jsx:47-53 | a click clears the loop exactly when it was on that id, and two clicks on the same id end with no loop unless the loop started on it |
| `App.DeleteStopsOnlyItsLoop` | src/App.jsx:60-65 | deleting the looping region clears the loop; deleting another leaves it |
| `App.SampleNamesDistinct` | src/App.jsx:81 | different counter values give different sample names |
| `App.DeletedRegionComesBack` | src/App.jsx:67-72 | after a list delete the waveform still holds the entry, so the next refresh lists it again |
| `Speakers.Roster.constructor` | src/hooks/useSpeakers.js:6-10 | the roster is speaker_0 and speaker_1 with their colours, and speaker_0 is selected |
| `Speakers.Roster.AddSpeaker` | src/hooks/useSpeakers.js:12-21 | appends `speaker_n` / `Speaker n` / `COLORS[n mod 8]` with n the prior length, and selects it |
| `Speakers.Roster.DeleteSpeaker` | src/hooks/useSpeakers.js:23-31 | no-op on a roster of at most one; otherwise removes every speaker with the id and, if it was selected, selects the pre-deletion first speaker |
| `Speakers.Roster.SetSelectedSpeaker` | src/hooks/useSpeakers.js:10 | any id can be selected; the roster is unchanged |
| `Speakers.Added` | src/hooks/useSpeakers.js:13-19 | one speaker is appended after the unchanged old roster, numbered by the old length |
| `Speakers.RemovedMembers` | src/hooks/useSpeakers.js:26 | removal keeps exactly the speakers with another id |
| `Speakers.RemovedAppend` | src/hooks/useSpeakers.js:26 | removal keeps the remaining speakers in order |
| `Speakers.RemovedAtMostOne` | src/hooks/useSpeakers.js:26 | with distinct ids, at most one speaker is removed |
| `Speakers.DeleteKeepsSomeone` | src/hooks/useSpeakers.js:24-26 | with distinct ids, deletion never empties the roster |
| `Speakers.DuplicateIdsEmptyTheRoster` | src/hooks/useSpeakers.js:24-26 | two speakers sharing an id are removed together, which empties the roster |
| `Speakers.InitialRosterNumbered` | src/hooks/useSpeakers.js:6-9 | speaker i of the initial roster has id `speaker_i` |
| `Speakers.AddedNumbered` | src/hooks/useSpeakers.js:13 | adding to a numbered roster keeps it numbered |
| `Speakers.SpeakerIdInjective` | src/hooks/useSpeakers.js:13 | different numbers give different ids |
| `Speakers.NumberedDistinct` | src/hooks/useSpeakers.js:13 | a roster built only by adding has distinct ids |
| `Speakers.DeleteThenAddReusesId` | src/hooks/useSpeakers.js:12-26 | deleting speaker_0 then adding gives two speakers with id speaker_1 |
| `Speakers.ReachableEmptyRoster` | src/hooks/useSpeakers.js:12-26 | from the initial roster, delete speaker_0, add, delete speaker_1 leaves no speaker, although the length guard is there to prevent that |
| `Speakers.SelectionCanPointAtDeleted` | src/hooks/useSpeakers.js:28-30 | deleting the selected first speaker leaves its own deleted id selected |
| `FileSystem.BaseName` | src/utils/fileSystemUtils.js:68 | the base name is a prefix of the name |
| `FileSystem.BaseNameSpec` | src/utils/fileSystemUtils.js:68 | where `\.[^/.]+$` matches, the name is cut there; where it matches nowhere, the name is kept |
| `FileSystem.BaseNameOfExtended` | src/utils/fileSystemUtils.js:102 | `base.ext` loses exactly `.ext` when ext is non-empty and has no `.` or `/` |
| `FileSystem.BaseNameKeeps` | src/utils/fileSystemUtils.js:68 | a name with no `.`, or ending in `.`, is kept |
| `FileSystem.BaseNameExamples` | src/utils/fileSystemUtils.js:68 | `a.tar.gz` gives `a.tar`; `a`, `a.` and `dir.x/f` are unchanged |
| `FileSystem.SavePathsOfExtended` | src/utils/fileSystemUtils.js:71-87 | saving `base.ext` reports `dataset/audio/base.wav` and `dataset/rttm/base.rttm` |
| `FileSystem.GetAudioFilesFromFolder` | src/utils/fileSystemUtils.js:25-55 | returns the audio-file entries sorted by name, as a permutation of those found |
| `FileSystem.AudioListingsMembers` | src/utils/fileSystemUtils.js:30-46 | an entry is listed iff it is a file whose lower-cased name ends with one of the seven audio extensions |
| `FileSystem.ExtensionIgnoresCase` | src/utils/fileSystemUtils.js:32-33 | names equal up to letter case are both listed or both not |
| `FileSystem.UpperCaseExtensionListed` | src/utils/fileSystemUtils.js:31-35 | `x.MP3` files are listed; directories are never listed |
| `FileSystem.NameLeqTotal` | src/utils/fileSystemUtils.js:49 | the name order is total |
| `FileSystem.NameLeqTransitive` | src/utils/fileSystemUtils.js:49 | the name order is transitive |
| `FileSystem.NameLeqAntisymmetric` | src/utils/fileSystemUtils.js:49 | the name order is antisymmetric |
| `FileSystem.SortByNameSorted` | src/utils/fileSystemUtils.js:49 | the sorted list is in name order |
| `FileSystem.SortByNamePermutes` | src/utils/fileSystemUtils.js:49 | sorting neither loses nor duplicates a file |
| `FileSystem.GetCompletedFiles` | src/utils/fileSystemUtils.js:121-146 | a missing `dataset/rttm` folder gives the empty set; otherwise the loop builds `CompletedSet` of its entries |
| `FileSystem.CompletedSetMembers` | src/utils/fileSystemUtils.js:130-135 | a name is completed iff some `.rttm` file yields it with its first `.rttm` removed |
| `FileSystem.OtherFilesIgnored` | src/utils/fileSystemUtils.js:131 | a file not ending in `.rttm` adds nothing |
| `FileSystem.CompletedNameOfSaved` | src/utils/fileSystemUtils.js:133 | `base.rttm` is completed as `base` when base contains no `.rttm` |
| `FileSystem.CompletedNameFirstOnly` | src/utils/fileSystemUtils.js:133 | `a.rttm.rttm` is completed as `a.rttm` |
| `FileSystem.SavedFileIsCompleted` | src/utils/fileSystemUtils.js:130-135 | the RTTM file a save writes marks its base name completed (when the base has no `.rttm`) |
| `AudioTime.FloorDiv` | src/utils/audioUtils.js:2 | `Math.floor(h / d)` is the q with d·q ≤ h < d·(q+1) |
| `AudioTime.Remainder` | src/utils/audioUtils.js:3 | JavaScript `%` keeps the sign of the dividend and has magnitude below the divisor |
| `AudioTime.FormatTimeZero` | src/utils/audioUtils.js:1-5 | 0 is shown as `00:00.00` |
| `AudioTime.FormatTimeExample` | src/utils/audioUtils.js:1-5 | 5.5 s is shown as `00:05.50` |
| `AudioTime.FormatTimeNegative` | src/utils/audioUtils.js:1-5 | −0.5 s is shown as `-1:-0.50` |
| `AudioTime.MinutesTextReadsBack` | src/utils/audioUtils.js:2-4 | the minutes part has at least two digits and is worth h div 6000 |
| `AudioTime.SecondsTextReadsBack` | src/utils/audioUtils.js:3-4 | the seconds part is five characters `SS.hh` worth h mod 6000 |
| `AudioTime.FormatTimeInjective` | src/utils/audioUtils.js:1-5 | different non-negative times are shown differently |
| `Text.TrimEmptyIffBlank` | src/utils/rttmParser.js:16 | `trim()` is empty exactly for all-white-space strings |
| `Text.JoinOfSplit` | src/utils/rttmParser.js:13 | joining the pieces of `split('\n')` gives the string back |
| `Text.SplitOfJoin` | src/utils/rttmExporter.js:10 | splitting a join of separator-free lines gives the lines back |
| `Text.SplitSpacesOfJoin` | src/utils/rttmParser.js:18 | `split(/\s+/)` of single-space-joined words gives the words back |
| `Text.PadStartShape` | src/utils/audioUtils.js:4 | `padStart` gives max(len, width) characters: the string is kept as the suffix and every character before it is the pad character |
| `Text.ToLower` | src/utils/fileSystemUtils.js:32 | lower-casing keeps the length and maps each character |

## Left out

- Non-string input to `parseRTTM` is not modelled. The model's input is always a string, and the empty string gives `[]`.
- `Decimal.ParseNumber` reads only an optional `-`, digits, and at most two fraction digits. This stands in for `parseFloat`: it is exact on what `toFixed(2)` writes. External RTTM with more precision, exponents or a trailing junk prefix is read as "not a number" here, not truncated or prefix-read.
- IEEE floating point is not modelled. Times are integer hundredths of a second, so `toFixed(2)` rounding and the sum `start + duration` are exact.
- Ids come from a counter instead of `Date.now()` and `Math.random()`, so their uniqueness is proved rather than assumed.
- Pixel-to-time mapping (`getBoundingClientRect`) is not modelled. The drag methods take times, and the popup position is an input.
- The mousedown test for clicks on an existing region's element is a boolean input (`onRegion`).
- WaveSurfer creation, rendering, plugin and listener registration, teardown, `playPause`, `stop` and `zoom` are external audio/UI library plumbing and are left out.
- `playRegionLoop` and `stopRegionLoop` are not offered by the waveform's imperative handle. Their presence is a boolean input of `HandlePlayRegion`, so loop playback and the position-watching loop boundary are not modelled.
- Resizing or moving a region on screen is done by the regions plugin. Its `region-updated` notifications, and the `region-removed` notification of a double-click removal, only trigger `HandleRegionsChange`, which is modelled as a separate event. The `region-removed` notifications raised inside `handleDeleteRegion`, `handleSave` and `handleClearAll` are modelled inside those handlers, as a synchronous call of `HandleRegionsChange` at the point where `remove()` is called; a drawing that was already removed raises no second notification.
- `confirmRegion`'s check that the regions plugin exists is taken as always true once a file is loaded.
- `speakerColor` and the colour strings of the drawings are not stored, since they only colour the drawings.
- `downloadFile`, `downloadWAV`, Blob/URL handling and the File System Access API calls are left out. So are `alert`, `confirm` (its answer is a boolean input) and the I/O error paths. `HandleSave` returns the file names and the RTTM text it would download.
- `formatFileSize` is left out because it uses `Math.log` and `Math.pow` floating point.
- `localeCompare` is modelled as code-unit lexicographic order, a total order. Locale collation is not modelled.
- `toLowerCase` is modelled on ASCII letters only.
- HandleSave, HandleDeleteRegion, SaveKeepsDrawnRegion: the model does not run a render after each handler. In the program every render of the viewer destroys and recreates the waveform, so every drawing is gone and the `region-removed` listener stays on the destroyed plugin. The refreshes these members model for a drawn labelled region therefore do not happen in the running program: a save ends with `[]` and a list delete leaves the list unchanged. `App.RenderSilencesRemovals` and `App.ConfirmThenRenderSilencesSave` state this for an engine after `WaveSurferHook.AfterRender`. The mouse listeners that each new instance adds to the container, without removing the old ones, are not modelled either.
- Pure UI components, the timeline styling and React re-render, batching and stale-closure behaviour are left out. Each handler runs to completion on the current state, and of the list updates a handler makes, the last one is the one that stays.
