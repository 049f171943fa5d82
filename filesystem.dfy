/**
 * The string side of `src/utils/fileSystemUtils.js`: stripping a file
 * name's extension, the paths a save writes to, the audio files listed from a
 * folder (filtered by extension, sorted by name) and the base names of the
 * RTTM files already saved. A folder is given as the list of its entries.
 */
module FileSystem {
  import opened Wrappers
  import opened Text

  // ---------------------------------------------------------------------
  // `fileName.replace(/\.[^/.]+$/, '')`

  /** The index of the last `.` in `s`. */
  function LastDot(s: string): (r: Option<nat>)
    ensures r.Some? ==> r.value < |s| && s[r.value] == '.' && '.' !in s[r.value + 1..]
    ensures r.None? ==> '.' !in s
  {
    if s == [] then None
    else if s[|s| - 1] == '.' then Some(|s| - 1)
    else
      var r := LastDot(s[..|s| - 1]);
      assert s == s[..|s| - 1] + [s[|s| - 1]];
      r
  }

  /**
   * The pattern matches at `k`: a `.` followed by at least one character and
   * then the end of the name, with neither `.` nor `/` after the `.`.
   */
  predicate ExtensionAt(name: string, k: nat) {
    k + 1 < |name| && name[k] == '.' && '.' !in name[k + 1..] && '/' !in name[k + 1..]
  }

  /** The name without its extension; a name the pattern does not match is kept whole. */
  function BaseName(name: string): (r: string)
    ensures |r| <= |name| && r == name[..|r|]
  {
    match LastDot(name)
    case None => name
    case Some(k) => if k + 1 < |name| && '/' !in name[k + 1..] then name[..k] else name
  }

  /** `${baseName}.wav` */
  function WavFileName(fileName: string): string {
    BaseName(fileName) + ".wav"
  }

  /** `${baseName}.rttm`, the name a save writes and a load looks for. */
  function RttmFileName(fileName: string): string {
    BaseName(fileName) + ".rttm"
  }

  /** The two paths `saveToDatasetFolder` reports. */
  datatype DatasetPaths = DatasetPaths(audioPath: string, rttmPath: string)

  function SavePaths(fileName: string): DatasetPaths {
    DatasetPaths("dataset/audio/" + WavFileName(fileName), "dataset/rttm/" + RttmFileName(fileName))
  }

  // ---------------------------------------------------------------------
  // Folder entries

  /** A directory entry; `size` and `lastModified` are what `getFile()` would report. */
  datatype Entry = Entry(name: string, isFile: bool, size: nat, lastModified: int)

  /** The record pushed for an audio file (its handle and `File` object are not modelled). */
  datatype Listing = Listing(name: string, size: nat, lastModified: int)

  const AudioExtensions: seq<string> := [".mp3", ".wav", ".m4a", ".aac", ".ogg", ".flac", ".wma"]

  /** `audioExtensions.some(ext => fileName.endsWith(ext))` */
  predicate HasAudioExtension(fileName: string) {
    exists k :: 0 <= k < |AudioExtensions| && EndsWith(fileName, AudioExtensions[k])
  }

  /** An entry is listed when it is a file whose lower-cased name has an audio extension. */
  predicate IsAudioEntry(e: Entry) {
    e.isFile && HasAudioExtension(ToLower(e.name))
  }

  function ListingOf(e: Entry): Listing {
    Listing(e.name, e.size, e.lastModified)
  }

  /** The records pushed by the scan, in directory order. */
  function AudioListings(entries: seq<Entry>): seq<Listing> {
    if entries == [] then []
    else
      var last := entries[|entries| - 1];
      AudioListings(entries[..|entries| - 1]) + (if IsAudioEntry(last) then [ListingOf(last)] else [])
  }

  // `a.name.localeCompare(b.name)`, taken as the code-unit order of the names

  /** `a` sorts no later than `b`. */
  predicate NameLeq(a: string, b: string)
    decreases |a|
  {
    a == [] || (b != [] && (a[0] < b[0] || (a[0] == b[0] && NameLeq(a[1..], b[1..]))))
  }

  predicate SortedByName(ls: seq<Listing>) {
    forall i, j :: 0 <= i < j < |ls| ==> NameLeq(ls[i].name, ls[j].name)
  }

  /** Places `l` after the last element whose name sorts no later than its own. */
  function InsertByName(sorted: seq<Listing>, l: Listing): seq<Listing> {
    if sorted == [] then [l]
    else if NameLeq(sorted[|sorted| - 1].name, l.name) then sorted + [l]
    else InsertByName(sorted[..|sorted| - 1], l) + [sorted[|sorted| - 1]]
  }

  /** `audioFiles.sort(...)`: a stable sort by name. */
  function SortByName(ls: seq<Listing>): seq<Listing> {
    if ls == [] then [] else InsertByName(SortByName(ls[..|ls| - 1]), ls[|ls| - 1])
  }

  /**
   * `getAudioFilesFromFolder`: one pass over the entries pushing the audio
   * files, then a sort by name. The result is sorted and holds exactly the
   * audio files of the folder.
   */
  method GetAudioFilesFromFolder(entries: seq<Entry>) returns (audioFiles: seq<Listing>)
    ensures audioFiles == SortByName(AudioListings(entries))
    ensures SortedByName(audioFiles)
    ensures multiset(audioFiles) == multiset(AudioListings(entries))
  {
    var found: seq<Listing> := [];
    for i := 0 to |entries|
      invariant found == AudioListings(entries[..i])
    {
      assert entries[..i + 1][..i] == entries[..i];
      var entry := entries[i];
      if entry.isFile {
        var fileName := ToLower(entry.name);
        var hasAudioExtension := exists k :: 0 <= k < |AudioExtensions| && EndsWith(fileName, AudioExtensions[k]);
        if hasAudioExtension {
          found := found + [Listing(entry.name, entry.size, entry.lastModified)];
        }
      }
    }
    assert entries[..|entries|] == entries;
    audioFiles := SortByName(found);
    SortByNameSorted(found);
    SortByNamePermutes(found);
  }

  // ---------------------------------------------------------------------
  // Completed files

  /** `entry.name.replace('.rttm', '')`: only the first occurrence goes. */
  function CompletedName(name: string): string {
    RemoveFirst(name, ".rttm")
  }

  predicate IsRttmEntry(e: Entry) {
    e.isFile && EndsWith(e.name, ".rttm")
  }

  /** The base names collected from the entries of `dataset/rttm`. */
  function CompletedSet(entries: seq<Entry>): set<string> {
    if entries == [] then {}
    else
      var last := entries[|entries| - 1];
      CompletedSet(entries[..|entries| - 1]) + (if IsRttmEntry(last) then {CompletedName(last.name)} else {})
  }

  /**
   * `getCompletedFiles`: `rttmFolder` is `None` when `dataset/rttm` does not
   * exist, which yields the empty set.
   */
  method GetCompletedFiles(rttmFolder: Option<seq<Entry>>) returns (completed: set<string>)
    ensures rttmFolder.None? ==> completed == {}
    ensures rttmFolder.Some? ==> completed == CompletedSet(rttmFolder.value)
  {
    completed := {};
    if rttmFolder.None? {
      return;
    }
    var entries := rttmFolder.value;
    for i := 0 to |entries|
      invariant completed == CompletedSet(entries[..i])
    {
      assert entries[..i + 1][..i] == entries[..i];
      var entry := entries[i];
      if entry.isFile && EndsWith(entry.name, ".rttm") {
        var baseName := CompletedName(entry.name);
        completed := completed + {baseName};
      }
    }
    assert entries[..|entries|] == entries;
  }

  // ---------------------------------------------------------------------
  // Properties of the base name

  /** Where the pattern matches, the name is cut there; where it matches nowhere, it is kept. */
  lemma BaseNameSpec(name: string, k: nat)
    ensures ExtensionAt(name, k) ==> BaseName(name) == name[..k]
    ensures (forall j :: !ExtensionAt(name, j)) ==> BaseName(name) == name
  {
    match LastDot(name)
    case None =>
    case Some(d) =>
      if d + 1 < |name| && '/' !in name[d + 1..] {
        assert ExtensionAt(name, d);
      }
  }

  /** `base.ext` loses exactly `.ext` when the extension is non-empty and holds no `.` or `/`. */
  lemma BaseNameOfExtended(base: string, ext: string)
    requires ext != [] && '.' !in ext && '/' !in ext
    ensures BaseName(base + "." + ext) == base
  {
    var name := base + "." + ext;
    assert name[|base| + 1..] == ext;
    assert ExtensionAt(name, |base|);
    BaseNameSpec(name, |base|);
    assert name[..|base|] == base;
  }

  /** A name with no `.`, or ending in `.`, is kept whole. */
  lemma BaseNameKeeps(name: string)
    requires '.' !in name || name[|name| - 1] == '.'
    ensures BaseName(name) == name
  {
    BaseNameSpec(name, 0);
  }

  /** `a.tar.gz` loses only `.gz`; `a` and `a.` are kept; a `.` in a folder name is not an extension. */
  lemma BaseNameExamples()
    ensures BaseName("a.tar.gz") == "a.tar"
    ensures BaseName("a") == "a"
    ensures BaseName("a.") == "a."
    ensures BaseName("dir.x/f") == "dir.x/f"
  {
    BaseNameOfExtended("a.tar", "gz");
    assert "a.tar" + "." + "gz" == "a.tar.gz";
    BaseNameKeeps("a");
    BaseNameKeeps("a.");
    var p := "dir.x/f";
    forall j: nat | ExtensionAt(p, j)
      ensures false
    {
    }
    BaseNameSpec(p, 0);
  }

  /** A save of `base.ext` writes `dataset/audio/base.wav` and `dataset/rttm/base.rttm`. */
  lemma SavePathsOfExtended(base: string, ext: string)
    requires ext != [] && '.' !in ext && '/' !in ext
    ensures SavePaths(base + "." + ext) == DatasetPaths("dataset/audio/" + base + ".wav", "dataset/rttm/" + base + ".rttm")
  {
    BaseNameOfExtended(base, ext);
  }

  // ---------------------------------------------------------------------
  // Properties of the audio listing

  /** Exactly the audio files are listed, each with its own name, size and date. */
  lemma {:induction false} AudioListingsMembers(entries: seq<Entry>, l: Listing)
    ensures l in AudioListings(entries) <==> exists e :: e in entries && IsAudioEntry(e) && l == ListingOf(e)
  {
    if entries != [] {
      var init := entries[..|entries| - 1];
      AudioListingsMembers(init, l);
      assert entries == init + [entries[|entries| - 1]];
    }
  }

  /** Matching ignores the case of the name. */
  lemma ExtensionIgnoresCase(e: Entry, name: string)
    requires ToLower(name) == ToLower(e.name)
    ensures IsAudioEntry(e) <==> IsAudioEntry(e.(name := name))
  {
  }

  /** A file named with an upper-case `.MP3` is listed; a directory never is, whatever its name. */
  lemma UpperCaseExtensionListed(base: string, size: nat, lastModified: int)
    ensures IsAudioEntry(Entry(base + ".MP3", true, size, lastModified))
    ensures !IsAudioEntry(Entry(base + ".mp3", false, size, lastModified))
  {
    var name := base + ".MP3";
    var lower := ToLower(name);
    assert EndsWith(lower, AudioExtensions[0]) by {
      forall i | 0 <= i < 4
        ensures lower[|base| + i] == ".mp3"[i]
      {
        assert name[|base| + i] == ".MP3"[i];
      }
      assert lower[|base|..] == ".mp3";
    }
  }

  lemma {:induction false} NameLeqTotal(a: string, b: string)
    ensures NameLeq(a, b) || NameLeq(b, a)
    decreases |a|
  {
    if a != [] && b != [] && a[0] == b[0] {
      NameLeqTotal(a[1..], b[1..]);
    }
  }

  lemma {:induction false} NameLeqTransitive(a: string, b: string, c: string)
    requires NameLeq(a, b) && NameLeq(b, c)
    ensures NameLeq(a, c)
    decreases |a|
  {
    if a != [] && a[0] == b[0] && b[0] == c[0] {
      NameLeqTransitive(a[1..], b[1..], c[1..]);
    }
  }

  lemma {:induction false} NameLeqAntisymmetric(a: string, b: string)
    requires NameLeq(a, b) && NameLeq(b, a)
    ensures a == b
    decreases |a|
  {
    if a != [] {
      NameLeqAntisymmetric(a[1..], b[1..]);
      assert a == [a[0]] + a[1..] && b == [b[0]] + b[1..];
    }
  }

  lemma {:induction false} InsertByNamePermutes(sorted: seq<Listing>, l: Listing)
    ensures multiset(InsertByName(sorted, l)) == multiset(sorted) + multiset{l}
  {
    if sorted != [] && !NameLeq(sorted[|sorted| - 1].name, l.name) {
      var init := sorted[..|sorted| - 1];
      InsertByNamePermutes(init, l);
      assert sorted == init + [sorted[|sorted| - 1]];
    }
  }

  lemma {:induction false} InsertByNameSorted(sorted: seq<Listing>, l: Listing)
    requires SortedByName(sorted)
    ensures SortedByName(InsertByName(sorted, l))
  {
    if sorted == [] {
    } else if NameLeq(sorted[|sorted| - 1].name, l.name) {
      var r := sorted + [l];
      forall i, j | 0 <= i < j < |r|
        ensures NameLeq(r[i].name, r[j].name)
      {
        if j == |sorted| && i < |sorted| - 1 {
          NameLeqTransitive(r[i].name, sorted[|sorted| - 1].name, l.name);
        }
      }
    } else {
      var init := sorted[..|sorted| - 1];
      var last := sorted[|sorted| - 1];
      InsertByNameSorted(init, l);
      InsertByNamePermutes(init, l);
      NameLeqTotal(last.name, l.name);
      var ins := InsertByName(init, l);
      forall i | 0 <= i < |ins|
        ensures NameLeq(ins[i].name, last.name)
      {
        assert ins[i] in multiset(ins);
        assert ins[i] in multiset(init) || ins[i] == l;
      }
    }
  }

  /** The listing comes out in name order. */
  lemma {:induction false} SortByNameSorted(ls: seq<Listing>)
    ensures SortedByName(SortByName(ls))
  {
    if ls != [] {
      SortByNameSorted(ls[..|ls| - 1]);
      InsertByNameSorted(SortByName(ls[..|ls| - 1]), ls[|ls| - 1]);
    }
  }

  /** Sorting neither loses nor duplicates a file. */
  lemma {:induction false} SortByNamePermutes(ls: seq<Listing>)
    ensures multiset(SortByName(ls)) == multiset(ls)
  {
    if ls != [] {
      var init := ls[..|ls| - 1];
      var last := ls[|ls| - 1];
      assert multiset(ls) == multiset(init) + multiset{last} by {
        assert ls == init + [last];
      }
      SortByNamePermutes(init);
      InsertByNamePermutes(SortByName(init), last);
    }
  }

  // ---------------------------------------------------------------------
  // Properties of the completed set

  /** A name is completed exactly when some `.rttm` file yields it. */
  lemma {:induction false} CompletedSetMembers(entries: seq<Entry>, x: string)
    ensures x in CompletedSet(entries) <==> exists e :: e in entries && IsRttmEntry(e) && CompletedName(e.name) == x
  {
    if entries != [] {
      var init := entries[..|entries| - 1];
      CompletedSetMembers(init, x);
      assert entries == init + [entries[|entries| - 1]];
    }
  }

  /** A file not ending in `.rttm` adds nothing. */
  lemma OtherFilesIgnored(entries: seq<Entry>, e: Entry)
    requires !EndsWith(e.name, ".rttm")
    ensures CompletedSet(entries + [e]) == CompletedSet(entries)
  {
    assert (entries + [e])[..|entries|] == entries;
  }

  /** No occurrence of `.rttm` straddles the end of a base that holds none. */
  lemma FirstRttmAtEnd(base: string)
    requires forall k :: !OccursAt(base, ".rttm", k)
    ensures IndexOfFrom(base + ".rttm", ".rttm", 0) == Some(|base|)
  {
    var s := base + ".rttm";
    assert OccursAt(s, ".rttm", |base|) by {
      assert s[|base|..|base| + 5] == ".rttm";
    }
    forall k | 0 <= k < |base|
      ensures !OccursAt(s, ".rttm", k)
    {
      NoEarlierRttm(base, k);
    }
  }

  lemma NoEarlierRttm(base: string, k: nat)
    requires forall j :: !OccursAt(base, ".rttm", j)
    requires k < |base|
    ensures !OccursAt(base + ".rttm", ".rttm", k)
  {
    var s := base + ".rttm";
    if k + 5 <= |base| {
      assert s[k..k + 5] == base[k..k + 5];
      assert !OccursAt(base, ".rttm", k);
    } else {
      assert s[|base|] == '.';
      var w := s[k..];
      assert w[|base| - k] == '.';
      assert ".rttm"[|base| - k] != '.';
    }
  }

  /** The completed name of `<base>.rttm` is `base`, provided `base` itself holds no `.rttm`. */
  lemma CompletedNameOfSaved(base: string)
    requires forall k :: !OccursAt(base, ".rttm", k)
    ensures CompletedName(base + ".rttm") == base
  {
    FirstRttmAtEnd(base);
    var s := base + ".rttm";
    assert s[..|base|] + s[|base| + 5..] == base;
  }

  /** Only the first `.rttm` goes: `a.rttm.rttm` is completed as `a.rttm`. */
  lemma CompletedNameFirstOnly()
    ensures CompletedName("a.rttm.rttm") == "a.rttm"
  {
    var s := "a.rttm.rttm";
    var pat := ".rttm";
    assert !OccursAt(s, pat, 0) by {
      assert s[0] != pat[0];
    }
    assert OccursAt(s, pat, 1) by {
      assert s[1..6] == pat;
    }
    assert IndexOfFrom(s, pat, 0) == Some(1);
    assert s[..1] + s[6..] == "a.rttm";
  }

  /**
   * Saving an audio file marks it completed under its base name, as long as
   * that base name holds no `.rttm`.
   */
  lemma SavedFileIsCompleted(fileName: string, size: nat, lastModified: int)
    requires forall k :: !OccursAt(BaseName(fileName), ".rttm", k)
    ensures BaseName(fileName) in CompletedSet([Entry(RttmFileName(fileName), true, size, lastModified)])
  {
    var e := Entry(RttmFileName(fileName), true, size, lastModified);
    CompletedNameOfSaved(BaseName(fileName));
    assert EndsWith(e.name, ".rttm");
    assert [e][..0] == [];
  }
}
