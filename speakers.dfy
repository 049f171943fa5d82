/**
 * The speaker roster of `src/hooks/useSpeakers.js`: the next roster is
 * computed from the current one, then written into the `speakers` and
 * `selectedSpeaker` state together.
 */
module Speakers {
  import opened Text
  import opened Model

  /** The eight colours handed out in turn. */
  const Colors: seq<string> := ["#3b82f6", "#ef4444", "#10b981", "#f59e0b", "#8b5cf6", "#ec4899", "#06b6d4", "#84cc16"]

  /** `speaker_${n}` */
  function SpeakerId(n: nat): string {
    "speaker_" + NatToString(n)
  }

  /** `Speaker ${n}` */
  function SpeakerName(n: nat): string {
    "Speaker " + NatToString(n)
  }

  /** The roster a fresh session starts with. */
  function InitialRoster(): seq<Speaker> {
    [Speaker("speaker_0", "Speaker 0", "#3b82f6"), Speaker("speaker_1", "Speaker 1", "#ef4444")]
  }

  /** `addSpeaker`: one more speaker, numbered by the current roster length. */
  function Added(speakers: seq<Speaker>): (r: seq<Speaker>)
    ensures |r| == |speakers| + 1 && r[..|speakers|] == speakers
    ensures r[|speakers|] == Speaker(SpeakerId(|speakers|), SpeakerName(|speakers|), Colors[|speakers| % 8])
  {
    var n := |speakers|;
    speakers + [Speaker(SpeakerId(n), SpeakerName(n), Colors[n % |Colors|])]
  }

  /** `speakers.filter(s => s.id !== speakerId)` */
  function Removed(speakers: seq<Speaker>, id: string): seq<Speaker> {
    if speakers == [] then []
    else Removed(speakers[..|speakers| - 1], id)
         + (if speakers[|speakers| - 1].id == id then [] else [speakers[|speakers| - 1]])
  }

  /** The roster after `deleteSpeaker`: untouched when it holds at most one speaker. */
  function RosterAfterDelete(speakers: seq<Speaker>, id: string): seq<Speaker> {
    if |speakers| <= 1 then speakers else Removed(speakers, id)
  }

  /**
   * The selection after `deleteSpeaker`: the first speaker of the roster as it
   * was before the deletion, when the deleted speaker was selected.
   */
  function SelectionAfterDelete(speakers: seq<Speaker>, selected: string, id: string): string {
    if |speakers| <= 1 || selected != id then selected else speakers[0].id
  }

  class Roster {
    var speakers: seq<Speaker>
    var selected: string

    /** The initial state: two speakers, the first one selected. */
    constructor ()
      ensures speakers == InitialRoster() && selected == "speaker_0"
    {
      speakers := InitialRoster();
      selected := "speaker_0";
    }

    /** `addSpeaker`: appends `speaker_n` and selects it. */
    method AddSpeaker()
      modifies this
      ensures speakers == Added(old(speakers))
      ensures selected == SpeakerId(|old(speakers)|)
    {
      var n := |speakers|;
      var newId := SpeakerId(n);
      speakers := speakers + [Speaker(newId, SpeakerName(n), Colors[n % |Colors|])];
      selected := newId;
    }

    /** `deleteSpeaker` */
    method DeleteSpeaker(id: string)
      modifies this
      ensures speakers == RosterAfterDelete(old(speakers), id)
      ensures selected == SelectionAfterDelete(old(speakers), old(selected), id)
    {
      if |speakers| <= 1 {
        return;
      }
      var first := speakers[0].id;
      speakers := Removed(speakers, id);
      if selected == id {
        selected := first;
      }
    }

    /** `setSelectedSpeaker`: any id is accepted, whether or not it is on the roster. */
    method SetSelectedSpeaker(id: string)
      modifies this
      ensures selected == id && speakers == old(speakers)
    {
      selected := id;
    }
  }

  // ---------------------------------------------------------------------
  // Properties

  /** Removing keeps exactly the speakers with another id. */
  lemma {:induction false} RemovedMembers(speakers: seq<Speaker>, id: string)
    ensures forall s :: s in Removed(speakers, id) <==> s in speakers && s.id != id
  {
    if speakers != [] {
      var init := speakers[..|speakers| - 1];
      RemovedMembers(init, id);
      assert speakers == init + [speakers[|speakers| - 1]];
    }
  }

  /** Removing keeps the remaining speakers in their order. */
  lemma {:induction false} RemovedAppend(a: seq<Speaker>, b: seq<Speaker>, id: string)
    ensures Removed(a + b, id) == Removed(a, id) + Removed(b, id)
  {
    if b == [] {
      assert a + b == a;
    } else {
      var init := b[..|b| - 1];
      var last := b[|b| - 1];
      var tail := if last.id == id then [] else [last];
      RemovedAppend(a, init, id);
      assert (a + b)[..|a + b| - 1] == a + init;
      assert (a + b)[|a + b| - 1] == last;
      assert Removed(a + b, id) == Removed(a + init, id) + tail;
      assert Removed(b, id) == Removed(init, id) + tail;
    }
  }

  predicate DistinctSpeakerIds(speakers: seq<Speaker>) {
    forall i, j :: 0 <= i < j < |speakers| ==> speakers[i].id != speakers[j].id
  }

  /** With distinct ids a removal takes out at most one speaker. */
  lemma {:induction false} RemovedAtMostOne(speakers: seq<Speaker>, id: string)
    requires DistinctSpeakerIds(speakers)
    ensures |Removed(speakers, id)| >= |speakers| - 1
  {
    if speakers != [] {
      var init := speakers[..|speakers| - 1];
      var last := speakers[|speakers| - 1];
      assert DistinctSpeakerIds(init);
      RemovedAtMostOne(init, id);
      if last.id == id {
        RemovedAll(init, id);
      }
    }
  }

  lemma {:induction false} RemovedAll(speakers: seq<Speaker>, id: string)
    requires forall i :: 0 <= i < |speakers| ==> speakers[i].id != id
    ensures Removed(speakers, id) == speakers
  {
    if speakers != [] {
      var init := speakers[..|speakers| - 1];
      var last := speakers[|speakers| - 1];
      RemovedAll(init, id);
      assert Removed(speakers, id) == Removed(init, id) + [last];
      assert init + [last] == speakers;
    }
  }

  /** While ids are distinct, a deletion never empties the roster. */
  lemma DeleteKeepsSomeone(speakers: seq<Speaker>, id: string)
    requires |speakers| >= 1 && DistinctSpeakerIds(speakers)
    ensures |RosterAfterDelete(speakers, id)| >= 1
  {
    if |speakers| > 1 {
      RemovedAtMostOne(speakers, id);
    }
  }

  /** Two speakers sharing an id are removed together, which can empty the roster. */
  lemma DuplicateIdsEmptyTheRoster()
    ensures var twins := [Speaker("speaker_1", "Speaker 1", "#ef4444"), Speaker("speaker_1", "Speaker 1", "#ef4444")];
      RosterAfterDelete(twins, "speaker_1") == []
  {
    var s := Speaker("speaker_1", "Speaker 1", "#ef4444");
    assert [s, s][..1] == [s];
    assert [s][..0] == [];
    assert Removed([s], "speaker_1") == [];
    assert Removed([s, s], "speaker_1") == Removed([s], "speaker_1");
  }

  /** The roster in which speaker `i` is `speaker_i`, as `addSpeaker` builds it when nothing is deleted. */
  predicate Numbered(speakers: seq<Speaker>) {
    forall i :: 0 <= i < |speakers| ==> speakers[i].id == SpeakerId(i)
  }

  lemma InitialRosterNumbered()
    ensures Numbered(InitialRoster()) && |InitialRoster()| == 2
  {
    var r := InitialRoster();
    assert r[0].id == SpeakerId(0) by {
      assert NatToString(0) == "0";
      assert "speaker_" + "0" == "speaker_0";
    }
    assert r[1].id == SpeakerId(1) by {
      assert NatToString(1) == "1";
      assert "speaker_" + "1" == "speaker_1";
    }
  }

  /** Adding to a numbered roster keeps it numbered. */
  lemma AddedNumbered(speakers: seq<Speaker>)
    requires Numbered(speakers)
    ensures Numbered(Added(speakers))
  {
  }

  lemma SpeakerIdInjective(m: nat, n: nat)
    requires SpeakerId(m) == SpeakerId(n)
    ensures m == n
  {
    var p := "speaker_";
    assert NatToString(m) == SpeakerId(m)[|p|..];
    assert NatToString(n) == SpeakerId(n)[|p|..];
    NatToStringInjective(m, n);
  }

  /** A numbered roster has distinct ids. */
  lemma NumberedDistinct(speakers: seq<Speaker>)
    requires Numbered(speakers)
    ensures DistinctSpeakerIds(speakers)
  {
    forall i, j | 0 <= i < j < |speakers|
      ensures speakers[i].id != speakers[j].id
    {
      if speakers[i].id == speakers[j].id {
        SpeakerIdInjective(i, j);
      }
    }
  }

  /**
   * Ids are not guaranteed unique: from the initial roster, deleting
   * `speaker_0` and adding a speaker gives two speakers called `speaker_1`.
   */
  lemma DeleteThenAddReusesId()
    ensures var after := Added(RosterAfterDelete(InitialRoster(), "speaker_0"));
      |after| == 2 && after[0].id == "speaker_1" && after[1].id == "speaker_1"
  {
    var s0 := Speaker("speaker_0", "Speaker 0", "#3b82f6");
    var s1 := Speaker("speaker_1", "Speaker 1", "#ef4444");
    assert InitialRoster() == [s0, s1];
    assert [s0, s1][..1] == [s0];
    assert [s0][..0] == [];
    assert Removed([s0], "speaker_0") == [];
    assert Removed([s0, s1], "speaker_0") == Removed([s0], "speaker_0") + [s1];
    assert RosterAfterDelete(InitialRoster(), "speaker_0") == [s1];
    assert SpeakerId(1) == "speaker_1" by {
      assert NatToString(1) == "1";
      assert "speaker_" + "1" == "speaker_1";
    }
  }

  /**
   * The length guard does not keep a speaker on the roster: from the initial
   * roster, deleting `speaker_0`, adding a speaker and deleting `speaker_1`
   * empties it.
   */
  lemma ReachableEmptyRoster()
    ensures RosterAfterDelete(Added(RosterAfterDelete(InitialRoster(), "speaker_0")), "speaker_1") == []
  {
    var twins := Added(RosterAfterDelete(InitialRoster(), "speaker_0"));
    DeleteThenAddReusesId();
    var s := twins[0];
    assert twins == [s, s] by {
      assert twins[1] == Speaker(SpeakerId(1), SpeakerName(1), Colors[1]);
      assert twins[0] == Speaker("speaker_1", "Speaker 1", "#ef4444") by {
        assert [twins[0]] == twins[..1] == RosterAfterDelete(InitialRoster(), "speaker_0");
        assert InitialRoster()[..1] == [InitialRoster()[0]];
        assert Removed(InitialRoster(), "speaker_0") == Removed(InitialRoster()[..1], "speaker_0") + [InitialRoster()[1]];
        assert [InitialRoster()[0]][..0] == [];
      }
      assert SpeakerName(1) == "Speaker 1" by {
        assert NatToString(1) == "1";
      }
    }
    assert [s, s][..1] == [s];
    assert [s][..0] == [];
    assert Removed([s], "speaker_1") == [];
  }

  /** Deleting the selected first speaker leaves its own, now deleted, id selected. */
  lemma SelectionCanPointAtDeleted()
    ensures SelectionAfterDelete(InitialRoster(), "speaker_0", "speaker_0") == "speaker_0"
    ensures forall s :: s in RosterAfterDelete(InitialRoster(), "speaker_0") ==> s.id != "speaker_0"
  {
    RemovedMembers(InitialRoster(), "speaker_0");
  }
}
