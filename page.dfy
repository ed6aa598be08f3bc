/**
 * The home page's state and the values it derives for the "my schedule"
 * view and the sidebar: the selected sessions and their rooms, the active
 * event and its speakers, and the select, deselect and day-change updates.
 */
module Page {
  import opened Wrappers
  import opened Seqs
  import opened ScheduleTypes
  import opened ScheduleUtils
  import opened CalendarView

  datatype Day = Day(date: string, dayLabel: string)

  /** The conference days offered by the day selector. */
  const Days: seq<Day> := [
    Day("2025-06-03", "Tuesday, June 3, 2025"),
    Day("2025-06-04", "Wednesday, June 4, 2025"),
    Day("2025-06-05", "Thursday, June 5, 2025")
  ]

  /** Which calendar the page shows: the whole day or only the selected sessions. */
  datatype View = Full | Mine

  /** What the page hands to the calendar: its sessions, its rooms and whether conflicts are hidden. */
  datatype CalendarInput = CalendarInput(sessions: seq<Session>, rooms: seq<Room>, hideConflicts: bool)

  predicate IsDay(date: string)
  {
    exists i :: 0 <= i < |Days| && Days[i].date == date
  }

  // ---------------------------------------------------------------------
  // My schedule: `mySessions`, `myRoomIds`, `myRooms`
  // ---------------------------------------------------------------------

  /**
   * `mySessions` is the order-preserving subsequence of the day's sessions
   * whose id is selected, each kept as often as it occurs.
   */
  lemma MySessionsSpec(daySessions: seq<Session>, selected: seq<string>)
    ensures IsSubsequence(SelectedSessions(daySessions, selected), daySessions)
    ensures forall s :: s in SelectedSessions(daySessions, selected) <==> s in daySessions && s.id in selected
    ensures forall s :: multiset(SelectedSessions(daySessions, selected))[s] ==
                        if s.id in selected then multiset(daySessions)[s] else 0
  {
    var mine := SelectedSessions(daySessions, selected);
    FilterIsSubsequence(daySessions, IdIn(selected));
    forall s: Session
      ensures multiset(mine)[s] == if s.id in selected then multiset(daySessions)[s] else 0
    {
      FilterCount(daySessions, IdIn(selected), s);
    }
    forall s: Session
      ensures s in mine <==> s in daySessions && s.id in selected
    {
      assert s in mine <==> s in multiset(mine);
      assert s in daySessions <==> s in multiset(daySessions);
    }
  }

  /** The order in which sessions were selected does not matter, only which ids are selected. */
  lemma MySessionsOrderIndependent(daySessions: seq<Session>, selected: seq<string>, selected': seq<string>)
    requires forall id :: id in selected <==> id in selected'
    ensures SelectedSessions(daySessions, selected) == SelectedSessions(daySessions, selected')
  {
    FilterCongruent(daySessions, IdIn(selected), IdIn(selected'));
  }

  /**
   * `myRooms`: the day's rooms, in their order, that some selected session
   * of the day takes place in, no more and no fewer.
   */
  lemma MyRoomsSpec(dayRooms: seq<Room>, daySessions: seq<Session>, selected: seq<string>)
    ensures var myRooms := RoomsUsedBy(dayRooms, SelectedSessions(daySessions, selected));
      && IsSubsequence(myRooms, dayRooms)
      && forall r :: r in myRooms <==>
           r in dayRooms && exists s :: s in daySessions && s.id in selected && s.roomId == r.id
  {
    var mine := SelectedSessions(daySessions, selected);
    RoomsUsedBySpec(dayRooms, mine);
    MySessionsSpec(daySessions, selected);
  }

  // ---------------------------------------------------------------------
  // The active event and its speakers
  // ---------------------------------------------------------------------

  function HasId(id: string): Session -> bool
  {
    (s: Session) => s.id == id
  }

  /** `sessions.find(s => s.id === id) || null`: the first session with that id. */
  function FindSession(sessions: seq<Session>, id: Option<string>): (r: Option<Session>)
    ensures r.Some? ==> id == Some(r.value.id)
    ensures r.Some? ==> exists i :: 0 <= i < |sessions| && sessions[i] == r.value &&
                                    forall j :: 0 <= j < i ==> sessions[j].id != r.value.id
    ensures r.None? ==> id.None? || forall s :: s in sessions ==> s.id != id.value
  {
    if id.None? then None
    else match FirstWhere(sessions, HasId(id.value))
      case None =>
        assert forall j :: 0 <= j < |sessions| ==> !HasId(id.value)(sessions[j]);
        None
      case Some(i) =>
        assert forall j :: 0 <= j < i ==> !HasId(id.value)(sessions[j]);
        Some(sessions[i])
  }

  function SpeakerHasId(id: string): Speaker -> bool
  {
    (s: Speaker) => s.id == id
  }

  /** `speakers.find(s => s.id === id)`: the first speaker with that id. */
  function FindSpeaker(speakers: seq<Speaker>, id: string): (r: Option<Speaker>)
    ensures r.Some? ==> r.value.id == id
    ensures r.Some? ==> exists i :: 0 <= i < |speakers| && speakers[i] == r.value &&
                                    forall j :: 0 <= j < i ==> speakers[j].id != id
    ensures r.None? ==> forall s :: s in speakers ==> s.id != id
  {
    match FirstWhere(speakers, SpeakerHasId(id))
    case None =>
      assert forall j :: 0 <= j < |speakers| ==> !SpeakerHasId(id)(speakers[j]);
      None
    case Some(i) =>
      assert forall j :: 0 <= j < i ==> !SpeakerHasId(id)(speakers[j]);
      Some(speakers[i])
  }

  /** What one id contributes: the speaker found for it, or nothing. */
  function FoundSpeaker(speakers: seq<Speaker>, id: string): seq<Speaker>
  {
    match FindSpeaker(speakers, id)
    case Some(sp) => [sp]
    case None => []
  }

  /** `ids.map(id => find(id)).filter(Boolean)`: the speakers found, in id order. */
  function ResolveSpeakers(ids: seq<string>, speakers: seq<Speaker>): (r: seq<Speaker>)
    ensures |r| <= |ids|
    ensures forall i :: 0 <= i < |r| ==> r[i] in speakers && r[i].id in ids
  {
    if ids == [] then []
    else
      var found := FoundSpeaker(speakers, ids[0]);
      var rest := ResolveSpeakers(ids[1..], speakers);
      assert forall i :: 0 <= i < |rest| ==> rest[i].id in ids;
      found + rest
  }

  /** When every id names a speaker, each id gives the first speaker with that id, in order. */
  lemma {:induction false} ResolveSpeakersAllKnown(ids: seq<string>, speakers: seq<Speaker>)
    requires forall i :: 0 <= i < |ids| ==> FindSpeaker(speakers, ids[i]).Some?
    ensures |ResolveSpeakers(ids, speakers)| == |ids|
    ensures forall i :: 0 <= i < |ids| ==> Some(ResolveSpeakers(ids, speakers)[i]) == FindSpeaker(speakers, ids[i])
  {
    if ids != [] {
      var tail := ids[1..];
      assert forall i :: 0 <= i < |tail| ==> tail[i] == ids[i + 1];
      ResolveSpeakersAllKnown(tail, speakers);
      var first := FindSpeaker(speakers, ids[0]);
      var rest := ResolveSpeakers(tail, speakers);
      var r := ResolveSpeakers(ids, speakers);
      assert FoundSpeaker(speakers, ids[0]) == [first.value];
      assert r == [first.value] + rest;
      forall i | 1 <= i < |ids|
        ensures Some(r[i]) == FindSpeaker(speakers, ids[i])
      {
        ConsAt(first.value, rest, i);
        assert Some(rest[i - 1]) == FindSpeaker(speakers, tail[i - 1]);
      }
    }
  }

  /** Unknown speaker ids are dropped without disturbing the others. */
  lemma {:induction false} ResolveSpeakersDropsUnknown(ids: seq<string>, speakers: seq<Speaker>, id: string)
    requires forall s :: s in speakers ==> s.id != id
    ensures ResolveSpeakers(ids + [id], speakers) == ResolveSpeakers(ids, speakers)
    ensures ResolveSpeakers([id] + ids, speakers) == ResolveSpeakers(ids, speakers)
  {
    assert ([id] + ids)[1..] == ids;
    if ids != [] {
      assert (ids + [id])[0] == ids[0] && (ids + [id])[1..] == ids[1..] + [id];
      ResolveSpeakersDropsUnknown(ids[1..], speakers, id);
    } else {
      assert [] + [id] == [id];
    }
  }

  /** Speaker lists concatenate: resolving `a + b` resolves `a`, then `b`. */
  lemma {:induction false} ResolveSpeakersAppend(a: seq<string>, b: seq<string>, speakers: seq<Speaker>)
    ensures ResolveSpeakers(a + b, speakers) == ResolveSpeakers(a, speakers) + ResolveSpeakers(b, speakers)
    decreases |a|
  {
    if a == [] {
      assert a + b == b;
    } else {
      assert (a + b)[0] == a[0] && (a + b)[1..] == a[1..] + b;
      var found := FoundSpeaker(speakers, a[0]);
      var tail, rest := ResolveSpeakers(a[1..], speakers), ResolveSpeakers(b, speakers);
      calc {
        ResolveSpeakers(a + b, speakers);
        found + ResolveSpeakers(a[1..] + b, speakers);
        { ResolveSpeakersAppend(a[1..], b, speakers); }
        found + (tail + rest);
        { AppendAssociative(found, tail, rest); }
        (found + tail) + rest;
        ResolveSpeakers(a, speakers) + rest;
      }
    }
  }

  /** The id names a speaker of the list. */
  function IsKnown(speakers: seq<Speaker>): string -> bool
  {
    (id: string) => FindSpeaker(speakers, id).Some?
  }

  /** Resolving a list of ids is resolving its known ids: the unknown ones, wherever they are, add nothing. */
  lemma {:induction false} ResolveSpeakersKnownOnly(ids: seq<string>, speakers: seq<Speaker>)
    ensures ResolveSpeakers(ids, speakers) == ResolveSpeakers(Filter(ids, IsKnown(speakers)), speakers)
    decreases |ids|
  {
    if ids != [] {
      var p := IsKnown(speakers);
      ResolveSpeakersKnownOnly(ids[1..], speakers);
      var known := Filter(ids, p);
      if p(ids[0]) {
        assert known == [ids[0]] + Filter(ids[1..], p);
        assert known[0] == ids[0] && known[1..] == Filter(ids[1..], p);
      } else {
        assert known == Filter(ids[1..], p);
      }
    }
  }

  /**
   * `ids.map(find).filter(Boolean)` in full: the result has one entry per
   * known id, in order, and entry `i` is the first speaker with the `i`-th
   * known id.
   */
  lemma {:induction false} ResolveSpeakersSpec(ids: seq<string>, speakers: seq<Speaker>)
    ensures var known := Filter(ids, IsKnown(speakers));
      && |ResolveSpeakers(ids, speakers)| == |known|
      && forall i :: 0 <= i < |known| ==> Some(ResolveSpeakers(ids, speakers)[i]) == FindSpeaker(speakers, known[i])
  {
    var known := Filter(ids, IsKnown(speakers));
    ResolveSpeakersKnownOnly(ids, speakers);
    ResolveSpeakersAllKnown(known, speakers);
  }

  /**
   * `activeSpeakers`: nothing without an active event; otherwise, for each of
   * its speaker ids the day knows, in order, the first speaker with that id.
   */
  function ActiveSpeakers(activeEvent: Option<Session>, speakers: seq<Speaker>): (r: seq<Speaker>)
    ensures activeEvent.None? ==> r == []
    ensures activeEvent.Some? ==> var known := Filter(activeEvent.value.speakers, IsKnown(speakers));
      && |r| == |known|
      && forall i :: 0 <= i < |known| ==> Some(r[i]) == FindSpeaker(speakers, known[i])
    ensures forall i :: 0 <= i < |r| ==> r[i] in speakers && activeEvent.Some? && r[i].id in activeEvent.value.speakers
  {
    if activeEvent.None? then []
    else
      ResolveSpeakersSpec(activeEvent.value.speakers, speakers);
      ResolveSpeakers(activeEvent.value.speakers, speakers)
  }

  /** `isSelected`: there is an active event and its id is selected. */
  predicate IsSelected(activeEvent: Option<Session>, selected: seq<string>)
  {
    activeEvent.Some? && activeEvent.value.id in selected
  }

  // ---------------------------------------------------------------------
  // Selection updates
  // ---------------------------------------------------------------------

  /** `handleSelect`'s update: append the active id when there is one and it is not selected yet. */
  function SelectIds(selected: seq<string>, activeEvent: Option<Session>): seq<string>
  {
    if activeEvent.Some? && !IsSelected(activeEvent, selected) then selected + [activeEvent.value.id] else selected
  }

  function Differs(id: string): string -> bool
  {
    (x: string) => x != id
  }

  /** `handleDeselect`'s update: drop every occurrence of the active id when it is selected. */
  function DeselectIds(selected: seq<string>, activeEvent: Option<Session>): seq<string>
  {
    if activeEvent.Some? && IsSelected(activeEvent, selected) then Filter(selected, Differs(activeEvent.value.id)) else selected
  }

  /**
   * Selecting keeps the old list as a prefix, adds at most the active id,
   * afterwards has the active id selected, and never creates a duplicate.
   */
  lemma SelectSpec(selected: seq<string>, activeEvent: Option<Session>)
    ensures selected <= SelectIds(selected, activeEvent)
    ensures |SelectIds(selected, activeEvent)| <= |selected| + 1
    ensures forall x :: x in SelectIds(selected, activeEvent) <==>
                        x in selected || (activeEvent.Some? && x == activeEvent.value.id)
    ensures activeEvent.Some? ==> IsSelected(activeEvent, SelectIds(selected, activeEvent))
    ensures NoDup(selected) ==> NoDup(SelectIds(selected, activeEvent))
    ensures activeEvent.None? || IsSelected(activeEvent, selected) ==> SelectIds(selected, activeEvent) == selected
  {
    var r := SelectIds(selected, activeEvent);
    if NoDup(selected) && activeEvent.Some? && activeEvent.value.id !in selected {
      forall i, j | 0 <= i < j < |r|
        ensures r[i] != r[j]
      {
        if j == |selected| {
          assert r[i] in selected;
        }
      }
    }
  }

  /**
   * Deselecting removes every occurrence of the active id and keeps every
   * other id, as often as it occurs and in order.
   */
  lemma DeselectSpec(selected: seq<string>, activeEvent: Option<Session>)
    ensures IsSubsequence(DeselectIds(selected, activeEvent), selected)
    ensures activeEvent.Some? ==> !IsSelected(activeEvent, DeselectIds(selected, activeEvent))
    ensures forall x :: multiset(DeselectIds(selected, activeEvent))[x] ==
                        if activeEvent.Some? && x == activeEvent.value.id then 0 else multiset(selected)[x]
  {
    if activeEvent.Some? && IsSelected(activeEvent, selected) {
      var p := Differs(activeEvent.value.id);
      FilterIsSubsequence(selected, p);
      forall x: string
        ensures multiset(Filter(selected, p))[x] == if x == activeEvent.value.id then 0 else multiset(selected)[x]
      {
        FilterCount(selected, p, x);
      }
    } else {
      IsSubsequenceReflexive(selected);
      if activeEvent.Some? {
        assert activeEvent.value.id !in multiset(selected);
      }
    }
  }

  /** Selecting an event that was not selected and then deselecting it restores the list. */
  lemma SelectThenDeselect(selected: seq<string>, activeEvent: Option<Session>)
    requires !IsSelected(activeEvent, selected)
    ensures DeselectIds(SelectIds(selected, activeEvent), activeEvent) == selected
  {
    if activeEvent.Some? {
      var id := activeEvent.value.id;
      FilterSnoc(selected, id, Differs(id));
      FilterKeepsAll(selected, Differs(id));
    }
  }

  // ---------------------------------------------------------------------
  // The page state
  // ---------------------------------------------------------------------

  /**
   * The page's state variables: the selected ids, the active event id and
   * the day shown, over the bundled schedule.
   */
  class HomePage {
    const schedule: ScheduleData
    var selectedEventIds: seq<string>
    var activeEventId: Option<string>
    var selectedDay: string
    var view: View

    /** The day shown is always one of the offered days. */
    ghost predicate Valid()
      reads this
    {
      IsDay(selectedDay)
    }

    constructor (schedule: ScheduleData)
      ensures Valid()
      ensures this.schedule == schedule
      ensures selectedEventIds == [] && activeEventId == None && selectedDay == Days[0].date
      ensures view == Full
    {
      this.schedule := schedule;
      selectedEventIds := [];
      activeEventId := None;
      selectedDay := Days[0].date;
      view := Full;
    }

    /**
     * `dayData`: the bundled schedule scoped to the day shown. The day shown
     * is one of the offered days, which is what makes the lookup of its
     * entry succeed.
     */
    function DayData(): ScheduleData
      reads this
      requires Valid()
    {
      GetScheduleForDay(schedule, selectedDay)
    }

    /** `activeEvent`: the first session of the day with the active id. */
    function ActiveEvent(): Option<Session>
      reads this
      requires Valid()
    {
      FindSession(DayData().sessions, activeEventId)
    }

    /**
     * The calendar's input: the full view shows the whole day and flags
     * conflicts; the "my schedule" view shows exactly the day's selected
     * sessions and exactly the rooms they use, with conflicts hidden, so
     * `MySessionsSpec` and `MyRoomsSpec` describe what it hands over.
     */
    function Calendar(): (c: CalendarInput)
      reads this
      requires Valid()
      ensures view == Full ==> c.sessions == DayData().sessions && c.rooms == DayData().rooms && !c.hideConflicts
      ensures view == Mine ==> c.hideConflicts
      ensures forall s :: s in c.sessions ==> s in DayData().sessions && (view == Mine ==> s.id in selectedEventIds)
      ensures forall r :: r in c.rooms ==> r in DayData().rooms
      ensures view == Mine ==> forall r :: r in c.rooms ==> exists s :: s in c.sessions && s.roomId == r.id
      ensures view == Mine ==> forall s :: s in DayData().sessions && s.id in selectedEventIds ==> s in c.sessions
      ensures view == Mine ==> forall r :: r in DayData().rooms && (exists s :: s in c.sessions && s.roomId == r.id) ==> r in c.rooms
      ensures view == Mine ==> c.sessions == SelectedSessions(DayData().sessions, selectedEventIds)
      ensures view == Mine ==> c.rooms == RoomsUsedBy(DayData().rooms, c.sessions)
    {
      var day := DayData();
      if view == Full then CalendarInput(day.sessions, day.rooms, false)
      else
        var mine := SelectedSessions(day.sessions, selectedEventIds);
        MySessionsSpec(day.sessions, selectedEventIds);
        RoomsUsedBySpec(day.rooms, mine);
        CalendarInput(mine, RoomsUsedBy(day.rooms, mine), true)
    }

    /** The two view buttons. */
    method HandleViewChange(v: View)
      requires Valid()
      modifies this
      ensures Valid()
      ensures view == v
      ensures selectedEventIds == old(selectedEventIds) && activeEventId == old(activeEventId) && selectedDay == old(selectedDay)
    {
      view := v;
    }

    /** `onEventClick`: the clicked session becomes the active one. */
    method HandleEventClick(id: string)
      requires Valid()
      modifies this
      ensures Valid()
      ensures activeEventId == Some(id)
      ensures selectedEventIds == old(selectedEventIds) && selectedDay == old(selectedDay) && view == old(view)
    {
      activeEventId := Some(id);
    }

    method HandleSelect()
      requires Valid()
      modifies this
      ensures Valid()
      ensures selectedEventIds == SelectIds(old(selectedEventIds), old(ActiveEvent()))
      ensures NoDup(old(selectedEventIds)) ==> NoDup(selectedEventIds)
      ensures activeEventId == old(activeEventId) && selectedDay == old(selectedDay) && view == old(view)
    {
      var activeEvent := ActiveEvent();
      if activeEvent.Some? && !IsSelected(activeEvent, selectedEventIds) {
        selectedEventIds := selectedEventIds + [activeEvent.value.id];
      }
      SelectSpec(old(selectedEventIds), activeEvent);
    }

    method HandleDeselect()
      requires Valid()
      modifies this
      ensures Valid()
      ensures selectedEventIds == DeselectIds(old(selectedEventIds), old(ActiveEvent()))
      ensures activeEventId == old(activeEventId) && selectedDay == old(selectedDay) && view == old(view)
    {
      var activeEvent := ActiveEvent();
      if activeEvent.Some? && IsSelected(activeEvent, selectedEventIds) {
        selectedEventIds := Filter(selectedEventIds, Differs(activeEvent.value.id));
      }
    }

    /** `handleDayChange`: show another offered day and clear the active event. */
    method HandleDayChange(day: string)
      requires Valid() && IsDay(day)
      modifies this
      ensures Valid()
      ensures selectedDay == day && activeEventId == None
      ensures selectedEventIds == old(selectedEventIds) && view == old(view)
    {
      selectedDay := day;
      activeEventId := None;
    }
  }
}
