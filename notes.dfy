/**
 * The note lanes of `plot_glucose_curve`: each note is drawn in one of four
 * rows below the chart, chosen by its position in the note list and moved
 * on by one row when its starting row was used less than two hours before.
 */
module NoteLanes {
  import opened Wrappers
  import opened GlucoseData

  const LaneCount := 4
  /** Two notes closer than this in the same lane count as too close. */
  const LaneGapSeconds := 7200

  /** One drawn note: where on the time axis, what text, which lane. */
  datatype NotePlacement = NotePlacement(timestamp: int, text: string, lane: nat)

  /** The text of a note record (a selected note always has some). */
  function NoteText(r: Record): (text: string)
    ensures r.notes.Some? ==> text == r.notes.value
  {
    if r.notes.Some? then r.notes.value else ""
  }

  /**
   * Lane `lane` was last used at a minute less than two hours before `ts`
   * (a signed difference, so a later use counts as well).
   */
  predicate TooClose(lastX: map<nat, int>, lane: nat, ts: int) {
    lane in lastX && (ts - lastX[lane]) * 60 < LaneGapSeconds
  }

  /** The lane after `lane`, wrapping from the last back to the first. */
  function NextLane(lane: nat): (next: nat)
    requires lane < LaneCount
    ensures next < LaneCount && next != lane
    ensures next == (lane + 1) % LaneCount
  {
    if lane + 1 == LaneCount then 0 else lane + 1
  }

  /** The lane of note number `i` at minute `ts`, given each lane's last minute. */
  function ChooseLane(lastX: map<nat, int>, i: nat, ts: int): (lane: nat)
    ensures lane < LaneCount
    ensures lane == i % LaneCount <==> !TooClose(lastX, i % LaneCount, ts)
    ensures lane == NextLane(i % LaneCount) <==> TooClose(lastX, i % LaneCount, ts)
  {
    var start := i % LaneCount;
    if TooClose(lastX, start, ts) then NextLane(start) else start
  }

  /** The last minute written for each lane after the notes `notes`. */
  function LastX(notes: seq<Record>): (lastX: map<nat, int>)
    ensures forall l :: l in lastX ==> l < LaneCount
  {
    if notes == [] then map[]
    else
      var init := notes[..|notes| - 1];
      var note := notes[|notes| - 1];
      LastX(init)[ChooseLane(LastX(init), |init|, note.timestamp) := note.timestamp]
  }

  /** Where the notes `notes` are drawn, in order. */
  function Placements(notes: seq<Record>): (ps: seq<NotePlacement>)
    ensures |ps| == |notes|
    ensures forall k :: 0 <= k < |ps| ==>
      && ps[k].lane < LaneCount
      && ps[k].timestamp == notes[k].timestamp
      && ps[k].text == NoteText(notes[k])
  {
    if notes == [] then []
    else
      var init := notes[..|notes| - 1];
      var note := notes[|notes| - 1];
      Placements(init)
        + [NotePlacement(note.timestamp, NoteText(note), ChooseLane(LastX(init), |init|, note.timestamp))]
  }

  /** One more note extends the placements by its own and updates its lane's minute. */
  lemma PlacementsStep(notes: seq<Record>, i: nat)
    requires i < |notes|
    ensures var lane := ChooseLane(LastX(notes[..i]), i, notes[i].timestamp);
      && Placements(notes[..i + 1]) == Placements(notes[..i]) + [NotePlacement(notes[i].timestamp, NoteText(notes[i]), lane)]
      && LastX(notes[..i + 1]) == LastX(notes[..i])[lane := notes[i].timestamp]
  {
    assert notes[..i + 1][..i] == notes[..i];
  }

  /**
   * The note loop of `plot_glucose_curve`, with its `note_last_x`
   * dictionary of each lane's last minute.
   */
  method PlaceNotes(notes: seq<Record>) returns (placements: seq<NotePlacement>)
    ensures placements == Placements(notes)
  {
    var lastX: map<nat, int> := map[];
    placements := [];
    for i := 0 to |notes|
      invariant placements == Placements(notes[..i])
      invariant lastX == LastX(notes[..i])
    {
      PlacementsStep(notes, i);
      var note := notes[i];
      var lane: nat := i % LaneCount;
      if lane in lastX && (note.timestamp - lastX[lane]) * 60 < LaneGapSeconds {
        lane := NextLane(lane);
      }
      placements := placements + [NotePlacement(note.timestamp, NoteText(note), lane)];
      lastX := lastX[lane := note.timestamp];
    }
    assert notes[..|notes|] == notes;
  }

  /** The minute of the last placement in lane `l`, if there is one. */
  function LastInLane(ps: seq<NotePlacement>, l: nat): (r: Option<int>)
    ensures r.None? <==> forall k :: 0 <= k < |ps| ==> ps[k].lane != l
    ensures r.Some? ==> exists k :: (0 <= k < |ps| && ps[k].lane == l && ps[k].timestamp == r.value
      && forall j :: k < j < |ps| ==> ps[j].lane != l)
  {
    if ps == [] then None
    else if ps[|ps| - 1].lane == l then Some(ps[|ps| - 1].timestamp)
    else
      var r := LastInLane(ps[..|ps| - 1], l);
      assert forall k :: 0 <= k < |ps| - 1 ==> ps[..|ps| - 1][k] == ps[k];
      r
  }

  /** The placements of the first `k` notes do not depend on the later ones. */
  lemma {:induction false} PlacementsPrefix(notes: seq<Record>, k: nat)
    requires k <= |notes|
    ensures Placements(notes[..k]) == Placements(notes)[..k]
  {
    if k < |notes| {
      var init := notes[..|notes| - 1];
      assert init[..k] == notes[..k];
      PlacementsPrefix(init, k);
    } else {
      assert notes[..k] == notes;
    }
  }

  /**
   * `note_last_x` holds exactly the lanes some note was placed in, each with
   * the minute of the last note placed there.
   */
  lemma {:induction false} LastXTracksLanes(notes: seq<Record>)
    ensures forall l :: l in LastX(notes) <==> LastInLane(Placements(notes), l).Some?
    ensures forall l :: l in LastX(notes) ==> LastInLane(Placements(notes), l) == Some(LastX(notes)[l])
  {
    if notes != [] {
      var init := notes[..|notes| - 1];
      LastXTracksLanes(init);
      var ps := Placements(notes);
      assert ps[..|ps| - 1] == Placements(init);
    }
  }

  /**
   * Placing one more note changes only the lane it goes into, which now
   * holds that note's minute; every other lane keeps its entry.
   */
  lemma LastXUpdate(notes: seq<Record>, note: Record)
    ensures var lane := Placements(notes + [note])[|notes|].lane;
      && lane in LastX(notes + [note]) && LastX(notes + [note])[lane] == note.timestamp
      && forall l :: l != lane ==> (l in LastX(notes + [note]) <==> l in LastX(notes))
    ensures forall l :: l != Placements(notes + [note])[|notes|].lane && l in LastX(notes) ==>
      LastX(notes + [note])[l] == LastX(notes)[l]
  {
    assert (notes + [note])[..|notes|] == notes;
  }

  /** The starting lane of note `k` was last used less than two hours before it. */
  predicate StartLaneCrowded(ps: seq<NotePlacement>, k: nat, ts: int)
    requires k <= |ps|
  {
    match LastInLane(ps[..k], k % LaneCount)
    case Some(t) => (ts - t) * 60 < LaneGapSeconds
    case None => false
  }

  /** Note `k` is placed by `ChooseLane` on the lanes of the notes before it. */
  lemma PlacementLane(notes: seq<Record>, k: nat)
    requires k < |notes|
    ensures Placements(notes)[k].lane == ChooseLane(LastX(notes[..k]), k, notes[k].timestamp)
  {
    var front := notes[..k + 1];
    PlacementsPrefix(notes, k + 1);
    assert front[..k] == notes[..k];
  }

  /** What `note_last_x` says about lane `k mod 4` is what the earlier placements say. */
  lemma CrowdedFromLastX(notes: seq<Record>, k: nat, ts: int)
    requires k <= |notes|
    ensures TooClose(LastX(notes[..k]), k % LaneCount, ts) <==> StartLaneCrowded(Placements(notes), k, ts)
  {
    PlacementsPrefix(notes, k);
    LastXTracksLanes(notes[..k]);
  }

  /**
   * Note `k` goes into lane `k mod 4`, or into the next lane exactly when
   * the last earlier note in lane `k mod 4` is less than two hours before it.
   */
  lemma LaneRule(notes: seq<Record>, k: nat)
    requires k < |notes|
    ensures Placements(notes)[k].lane == k % LaneCount || Placements(notes)[k].lane == NextLane(k % LaneCount)
    ensures Placements(notes)[k].lane == NextLane(k % LaneCount) <==>
      StartLaneCrowded(Placements(notes), k, notes[k].timestamp)
  {
    PlacementLane(notes, k);
    CrowdedFromLastX(notes, k, notes[k].timestamp);
  }

  function NoteAt(minute: int): Record {
    Record(minute, NoteType, None, None, Some("n"))
  }

  /**
   * A moved note is not checked against its new lane: five notes a minute
   * apart put the second and the fifth, one minute and four minutes past the
   * hour, into the same lane.
   */
  lemma MovedNoteNotRechecked()
    ensures var ps := Placements([NoteAt(0), NoteAt(1), NoteAt(2), NoteAt(3), NoteAt(4)]);
      && ps[1].lane == ps[4].lane
      && (ps[4].timestamp - ps[1].timestamp) * 60 < LaneGapSeconds
  {
    var n1 := [NoteAt(0)];
    var n2 := n1 + [NoteAt(1)];
    var n3 := n2 + [NoteAt(2)];
    var n4 := n3 + [NoteAt(3)];
    var n5 := n4 + [NoteAt(4)];
    assert n2[..1] == n1 && n3[..2] == n2 && n4[..3] == n3 && n5[..4] == n4;
    assert LastX(n1) == map[0 := 0];
    assert LastX(n2) == map[0 := 0, 1 := 1];
    assert LastX(n3) == map[0 := 0, 1 := 1, 2 := 2];
    assert LastX(n4) == map[0 := 0, 1 := 1, 2 := 2, 3 := 3];
    assert Placements(n5)[4].lane == 1;
    PlacementsPrefix(n5, 2);
    assert n5[..2] == n2;
    assert n5 == [NoteAt(0), NoteAt(1), NoteAt(2), NoteAt(3), NoteAt(4)];
  }
}
