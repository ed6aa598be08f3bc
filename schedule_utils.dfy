/**
 * The schedule utilities: normalising the raw lists into lookup tables,
 * scoping a schedule to one day, and placing sessions on the grid of
 * 10-minute blocks from 9:00 to 19:00.
 */
module ScheduleUtils {
  import opened Wrappers
  import opened Seqs
  import opened StringOrder
  import opened Decimal
  import opened ScheduleTypes

  // ---------------------------------------------------------------------
  // normalizeSchedule
  // ---------------------------------------------------------------------

  /**
   * `m` holds exactly the keys that occur in `xs`, each mapped to the last
   * element of `xs` with that key.
   */
  ghost predicate KeyedByLast<T, K(!new)>(xs: seq<T>, key: T -> K, m: map<K, T>)
  {
    && (forall k :: k in m <==> exists i :: 0 <= i < |xs| && key(xs[i]) == k)
    && (forall k :: k in m ==> exists i :: 0 <= i < |xs| && m[k] == xs[i] && key(xs[i]) == k &&
                                            forall j :: i < j < |xs| ==> key(xs[j]) != k)
  }

  /**
   * `xs.forEach(x => { m[key(x)] = x; })` on an empty record: every key that
   * occurs is present and holds the last element with that key.
   */
  method KeyBy<T, K(==, !new)>(xs: seq<T>, key: T -> K) returns (m: map<K, T>)
    ensures KeyedByLast(xs, key, m)
  {
    m := map[];
    var i := 0;
    while i < |xs|
      invariant 0 <= i <= |xs|
      invariant forall k :: k in m <==> LastWhere(xs[..i], KeyIs(key, k)).Some?
      invariant forall k :: k in m ==> m[k] == xs[LastWhere(xs[..i], KeyIs(key, k)).value]
    {
      assert xs[..i + 1][..i] == xs[..i];
      m := m[key(xs[i]) := xs[i]];
      i := i + 1;
    }
    assert xs[..i] == xs;
    forall k
      ensures k in m <==> exists i :: 0 <= i < |xs| && key(xs[i]) == k
    {
      if exists i :: 0 <= i < |xs| && key(xs[i]) == k {
        var i :| 0 <= i < |xs| && key(xs[i]) == k;
        assert KeyIs(key, k)(xs[i]);
      }
    }
    forall k | k in m
      ensures exists i :: 0 <= i < |xs| && m[k] == xs[i] && key(xs[i]) == k &&
                          forall j :: i < j < |xs| ==> key(xs[j]) != k
    {
      var i := LastWhere(xs, KeyIs(key, k)).value;
      assert forall j :: i < j < |xs| ==> !KeyIs(key, k)(xs[j]);
    }
  }

  function RoomIds(rooms: seq<Room>): set<int>
  {
    set r | r in rooms :: r.id
  }

  /** The sessions held in room `id`. */
  function InRoom(id: int): Session -> bool
  {
    (s: Session) => s.roomId == id
  }

  /**
   * `sessionsByRoom`: one entry per room id, each holding in input order the
   * sessions with that room id; a session whose room is unknown is in none.
   */
  method GroupByRoom(sessions: seq<Session>, rooms: seq<Room>) returns (byRoom: map<int, seq<Session>>)
    ensures byRoom.Keys == RoomIds(rooms)
    ensures forall id :: id in byRoom ==> byRoom[id] == Filter(sessions, InRoom(id))
    ensures forall id, s :: id in byRoom && s in byRoom[id] ==> s in sessions && s.roomId == id
  {
    byRoom := map[];
    var i := 0;
    while i < |rooms|
      invariant 0 <= i <= |rooms|
      invariant byRoom.Keys == RoomIds(rooms[..i])
      invariant forall id :: id in byRoom ==> byRoom[id] == []
    {
      assert rooms[..i + 1] == rooms[..i] + [rooms[i]];
      byRoom := byRoom[rooms[i].id := []];
      i := i + 1;
    }
    assert rooms[..i] == rooms;
    var j := 0;
    while j < |sessions|
      invariant 0 <= j <= |sessions|
      invariant byRoom.Keys == RoomIds(rooms)
      invariant forall id :: id in byRoom ==> byRoom[id] == Filter(sessions[..j], InRoom(id))
    {
      var s := sessions[j];
      assert sessions[..j + 1] == sessions[..j] + [s];
      forall id | id in byRoom
        ensures Filter(sessions[..j + 1], InRoom(id)) == Filter(sessions[..j], InRoom(id)) + (if s.roomId == id then [s] else [])
      {
        FilterSnoc(sessions[..j], s, InRoom(id));
      }
      if s.roomId in byRoom {
        byRoom := byRoom[s.roomId := byRoom[s.roomId] + [s]];
      }
      j := j + 1;
    }
    assert sessions[..j] == sessions;
  }

  /** `t` is the start or the end of some session. */
  ghost predicate IsTimeOf(sessions: seq<Session>, t: string)
  {
    exists k :: 0 <= k < |sessions| && (sessions[k].startsAt == t || sessions[k].endsAt == t)
  }

  lemma IsTimeOfSnoc(sessions: seq<Session>, s: Session, t: string)
    ensures IsTimeOf(sessions + [s], t) <==> IsTimeOf(sessions, t) || t == s.startsAt || t == s.endsAt
  {
    var ext := sessions + [s];
    if IsTimeOf(ext, t) {
      var k :| 0 <= k < |ext| && (ext[k].startsAt == t || ext[k].endsAt == t);
      if k < |sessions| {
        assert ext[k] == sessions[k];
      }
    }
    if IsTimeOf(sessions, t) {
      var k :| 0 <= k < |sessions| && (sessions[k].startsAt == t || sessions[k].endsAt == t);
      assert ext[k] == sessions[k];
    }
    if t == s.startsAt || t == s.endsAt {
      assert ext[|sessions|] == s;
    }
  }

  /**
   * The `Set` of all start and end times, in insertion order: each time once,
   * and exactly the times some session starts or ends at.
   */
  method CollectTimes(sessions: seq<Session>) returns (times: seq<string>)
    ensures NoDup(times)
    ensures forall t :: t in times <==> IsTimeOf(sessions, t)
  {
    times := [];
    var i := 0;
    while i < |sessions|
      invariant 0 <= i <= |sessions|
      invariant NoDup(times)
      invariant forall t :: t in times <==> IsTimeOf(sessions[..i], t)
    {
      var s := sessions[i];
      assert sessions[..i + 1] == sessions[..i] + [s];
      forall t
        ensures IsTimeOf(sessions[..i + 1], t) <==> IsTimeOf(sessions[..i], t) || t == s.startsAt || t == s.endsAt
      {
        IsTimeOfSnoc(sessions[..i], s, t);
      }
      if s.startsAt !in times {
        times := times + [s.startsAt];
      }
      if s.endsAt !in times {
        times := times + [s.endsAt];
      }
      i := i + 1;
    }
    assert sessions[..i] == sessions;
  }

  /** Non-decreasing by the `sort` key. */
  ghost predicate RoomsSorted(s: seq<Room>)
  {
    forall i, j :: 0 <= i < j < |s| ==> s[i].sort <= s[j].sort
  }

  /** Inserts `x` before the first room whose key is not smaller. */
  function InsertRoom(x: Room, s: seq<Room>): (r: seq<Room>)
    requires RoomsSorted(s)
    ensures RoomsSorted(r)
    ensures multiset(r) == multiset(s) + multiset{x}
    decreases |s|
  {
    if s == [] || x.sort <= s[0].sort then
      [x] + s
    else
      assert RoomsSorted(s[1..]);
      var rest := InsertRoom(x, s[1..]);
      InsertRoomBehind(x, s, rest);
      assert s == [s[0]] + s[1..];
      [s[0]] + rest
  }

  lemma InsertRoomBehind(x: Room, s: seq<Room>, rest: seq<Room>)
    requires RoomsSorted(s) && s != [] && s[0].sort < x.sort
    requires RoomsSorted(rest) && multiset(rest) == multiset(s[1..]) + multiset{x}
    ensures RoomsSorted([s[0]] + rest)
  {
    var r := [s[0]] + rest;
    forall j | 0 < j < |r|
      ensures s[0].sort <= r[j].sort
    {
      var y := rest[j - 1];
      assert y in multiset(rest);
      if y != x {
        assert y in multiset(s[1..]);
        var k :| 0 <= k < |s[1..]| && s[1..][k] == y;
        assert s[k + 1] == y;
      }
    }
  }

  /** `rooms.slice().sort((a, b) => a.sort - b.sort)`: a stable sort by `sort`. */
  function SortRooms(rooms: seq<Room>): (r: seq<Room>)
    ensures RoomsSorted(r)
    ensures multiset(r) == multiset(rooms)
  {
    if rooms == [] then []
    else
      assert rooms == [rooms[0]] + rooms[1..];
      InsertRoom(rooms[0], SortRooms(rooms[1..]))
  }

  function SortIs(k: int): Room -> bool
  {
    (r: Room) => r.sort == k
  }

  /** Inserting behind the first room: that room stays in front. */
  lemma InsertRoomUnfold(x: Room, s: seq<Room>)
    requires RoomsSorted(s) && s != [] && x.sort > s[0].sort
    ensures RoomsSorted(s[1..])
    ensures InsertRoom(x, s) == [s[0]] + InsertRoom(x, s[1..])
  {
  }

  lemma {:induction false} InsertRoomStable(x: Room, s: seq<Room>, k: int)
    requires RoomsSorted(s)
    ensures Filter(InsertRoom(x, s), SortIs(k)) == Filter([x] + s, SortIs(k))
    decreases |s|
  {
    var p := SortIs(k);
    if s != [] && x.sort > s[0].sort {
      var t := s[1..];
      InsertRoomUnfold(x, s);
      var rest := InsertRoom(x, t);
      InsertRoomStable(x, t, k);
      FilterCons(s[0], rest, p);
      FilterCons(x, t, p);
      FilterCons(x, s, p);
      assert s == [s[0]] + t;
      FilterCons(s[0], t, p);
      // x and s[0] have different keys, so at most one of them is kept
      var ex := if p(x) then [x] else [];
      var e0 := if p(s[0]) then [s[0]] else [];
      SwapEmpty(e0, ex, Filter(t, p));
    }
  }

  /** Rooms with equal `sort` keep their input order: the sort is stable. */
  lemma {:induction false} SortRoomsStable(rooms: seq<Room>, k: int)
    ensures Filter(SortRooms(rooms), SortIs(k)) == Filter(rooms, SortIs(k))
    decreases |rooms|
  {
    if rooms != [] {
      SortRoomsStable(rooms[1..], k);
      InsertRoomStable(rooms[0], SortRooms(rooms[1..]), k);
      var rest := SortRooms(rooms[1..]);
      assert ([rooms[0]] + rest)[0] == rooms[0] && ([rooms[0]] + rest)[1..] == rest;
    }
  }

  /**
   * `normalizeSchedule`: lookup maps built by single passes (last write wins),
   * per-room session lists, the distinct times strictly ascending, and the
   * rooms stably sorted; the sessions are passed through.
   */
  method NormalizeSchedule(data: ScheduleData) returns (n: NormalizedSchedule)
    ensures n.sessions == data.sessions
    ensures n.rooms == SortRooms(data.rooms)
    ensures n.roomMap.Keys == RoomIds(data.rooms)
    ensures KeyedByLast(data.rooms, RoomId, n.roomMap)
    ensures n.sessionsByRoom.Keys == RoomIds(data.rooms)
    ensures forall id :: id in n.sessionsByRoom ==> n.sessionsByRoom[id] == Filter(data.sessions, InRoom(id))
    ensures StrictlySorted(n.timeSlots)
    ensures forall t :: t in n.timeSlots <==> IsTimeOf(data.sessions, t)
    ensures KeyedByLast(data.speakers, SpeakerId, n.speakerMap)
  {
    var roomMap := KeyBy(data.rooms, RoomId);
    RoomKeys(data.rooms, roomMap);
    var sessionsByRoom := GroupByRoom(data.sessions, data.rooms);
    var timeSlots := TimeSlots(data.sessions);
    var speakerMap := KeyBy(data.speakers, SpeakerId);
    n := NormalizedSchedule(SortRooms(data.rooms), data.sessions, timeSlots, roomMap, sessionsByRoom, speakerMap);
  }

  /** A key set holding exactly the ids some room carries is the set of room ids. */
  lemma RoomKeys(rooms: seq<Room>, m: map<int, Room>)
    requires KeyedByLast(rooms, RoomId, m)
    ensures m.Keys == RoomIds(rooms)
  {
    forall id | id in RoomIds(rooms)
      ensures id in m
    {
      var r :| r in rooms && r.id == id;
      var i :| 0 <= i < |rooms| && rooms[i] == r;
      assert RoomId(rooms[i]) == id;
    }
    forall id | id in m
      ensures id in RoomIds(rooms)
    {
      var i :| 0 <= i < |rooms| && RoomId(rooms[i]) == id;
      assert rooms[i] in rooms;
    }
  }

  /** `Array.from(timeSet).sort()`: each start or end time once, strictly ascending. */
  method TimeSlots(sessions: seq<Session>) returns (timeSlots: seq<string>)
    ensures StrictlySorted(timeSlots)
    ensures forall t :: t in timeSlots <==> IsTimeOf(sessions, t)
  {
    var times := CollectTimes(sessions);
    SortDistinctStrictlySorted(times);
    timeSlots := Sort(times);
    forall t
      ensures t in timeSlots <==> t in times
    {
      assert t in timeSlots <==> t in multiset(timeSlots);
    }
  }

  // ---------------------------------------------------------------------
  // getScheduleForDay
  // ---------------------------------------------------------------------

  /** `session.startsAt.startsWith(date)`; Dafny's `<=` on strings is "is a prefix of". */
  function StartsOn(date: string): Session -> bool
  {
    (s: Session) => date <= s.startsAt
  }

  function RoomIdsOf(sessions: seq<Session>): set<int>
  {
    set s | s in sessions :: s.roomId
  }

  function RoomIdIn(ids: set<int>): Room -> bool
  {
    (r: Room) => r.id in ids
  }

  /** The rooms, in their order, that some of `sessions` take place in. */
  function RoomsUsedBy(rooms: seq<Room>, sessions: seq<Session>): (r: seq<Room>)
    ensures |r| <= |rooms|
    ensures forall x :: x in r ==> x in rooms && x.id in RoomIdsOf(sessions)
  {
    Filter(rooms, RoomIdIn(RoomIdsOf(sessions)))
  }

  /** What `RoomsUsedBy` keeps: every used room, as often and in the order it occurs, and nothing else. */
  lemma RoomsUsedBySpec(rooms: seq<Room>, sessions: seq<Session>)
    ensures IsSubsequence(RoomsUsedBy(rooms, sessions), rooms)
    ensures forall r :: r in RoomsUsedBy(rooms, sessions) <==>
      r in rooms && exists s :: s in sessions && s.roomId == r.id
    ensures forall r :: multiset(RoomsUsedBy(rooms, sessions))[r] ==
                       if r.id in RoomIdsOf(sessions) then multiset(rooms)[r] else 0
  {
    var p := RoomIdIn(RoomIdsOf(sessions));
    FilterIsSubsequence(rooms, p);
    forall r
      ensures multiset(RoomsUsedBy(rooms, sessions))[r] == if r.id in RoomIdsOf(sessions) then multiset(rooms)[r] else 0
    {
      FilterCount(rooms, p, r);
    }
    var used := RoomsUsedBy(rooms, sessions);
    forall r
      ensures r in used <==> r in rooms && exists s :: s in sessions && s.roomId == r.id
    {
      assert r in used <==> r in multiset(used);
      assert r in rooms <==> r in multiset(rooms);
    }
  }

  /** `getScheduleForDay`: the sessions starting on `date` and the rooms they use. */
  function GetScheduleForDay(data: ScheduleData, date: string): (day: ScheduleData)
    ensures day.speakers == data.speakers
    ensures forall s :: s in day.sessions <==> s in data.sessions && date <= s.startsAt
    ensures forall r :: r in day.rooms ==> r in data.rooms
  {
    var sessions := Filter(data.sessions, StartsOn(date));
    ScheduleData(sessions, RoomsUsedBy(data.rooms, sessions), data.speakers)
  }

  /**
   * The day's sessions are the order-preserving subsequence of those whose
   * start begins with `date`; its rooms are those some kept session uses;
   * the speakers are untouched.
   */
  lemma GetScheduleForDaySpec(data: ScheduleData, date: string)
    ensures var day := GetScheduleForDay(data, date);
      && IsSubsequence(day.sessions, data.sessions)
      && (forall s :: s in day.sessions <==> s in data.sessions && date <= s.startsAt)
      && (forall s :: multiset(day.sessions)[s] == if date <= s.startsAt then multiset(data.sessions)[s] else 0)
      && IsSubsequence(day.rooms, data.rooms)
      && (forall r :: r in day.rooms <==> r in data.rooms && exists s :: s in day.sessions && s.roomId == r.id)
      && day.speakers == data.speakers
  {
    var day := GetScheduleForDay(data, date);
    FilterIsSubsequence(data.sessions, StartsOn(date));
    forall s
      ensures multiset(day.sessions)[s] == if date <= s.startsAt then multiset(data.sessions)[s] else 0
    {
      FilterCount(data.sessions, StartsOn(date), s);
    }
    forall s
      ensures s in day.sessions <==> s in data.sessions && date <= s.startsAt
    {
      assert s in day.sessions <==> s in multiset(day.sessions);
      assert s in data.sessions <==> s in multiset(data.sessions);
    }
    RoomsUsedBySpec(data.rooms, day.sessions);
  }

  /** Scoping a day-scoped schedule to the same day changes nothing. */
  lemma GetScheduleForDayIdempotent(data: ScheduleData, date: string)
    ensures GetScheduleForDay(GetScheduleForDay(data, date), date) == GetScheduleForDay(data, date)
  {
    var day := GetScheduleForDay(data, date);
    FilterIdempotent(data.sessions, StartsOn(date));
    var p := RoomIdIn(RoomIdsOf(day.sessions));
    FilterKeepsAll(day.rooms, p);
  }

  // ---------------------------------------------------------------------
  // buildEventGridPlacements
  // ---------------------------------------------------------------------

  const StartHour := 9
  const EndHour := 19
  /** Number of 10-minute blocks from 9:00 to 19:00. */
  const TotalBlocks := (EndHour - StartHour) * 6

  /**
   * `timeToBlockIndex`: the 10-minute block, counted from 9:00, that contains
   * the time. Not clamped: times before 9:00 give negative indices and times
   * from 19:00 on give indices past the table.
   */
  function TimeToBlockIndex(t: LocalTime): (r: int)
    ensures 10 * r <= 60 * (t.hour - StartHour) + t.minute < 10 * r + 10
    ensures r < 0 <==> t.hour < StartHour
    ensures r >= TotalBlocks <==> t.hour >= EndHour
  {
    (t.hour - StartHour) * 6 + t.minute / 10
  }

  /** `HH:MM`, both parts zero-padded. */
  function Label(hour: nat, minute: nat): string
  {
    PadStart2(hour) + ":" + PadStart2(minute)
  }

  /** Entry `i` of the `timeBlocks` table. */
  function BlockAt(i: nat): TimeBlock
  {
    var hour := StartHour + i / 6;
    var minute := 10 * (i % 6);
    TimeBlock(Label(hour, minute), hour, minute, i)
  }

  /** A block's label reads back as its hour and minute, in the form `HH:MM`. */
  lemma BlockLabel(i: nat)
    requires i < TotalBlocks
    ensures var b := BlockAt(i);
      && |b.timeLabel| == 5 && b.timeLabel[2] == ':'
      && (forall k :: 0 <= k < 5 && k != 2 ==> IsDigit(b.timeLabel[k]))
      && Value(b.timeLabel[..2]) == b.hour
      && Value(b.timeLabel[3..]) == b.minute
  {
    var b := BlockAt(i);
    PadStart2Value(b.hour);
    PadStart2Value(b.minute);
    assert b.timeLabel[..2] == PadStart2(b.hour);
    assert b.timeLabel[3..] == PadStart2(b.minute);
  }

  /** Converting a block's own hour and minute back to an index gives the block. */
  lemma BlockIndexRoundTrip(i: nat)
    requires i < TotalBlocks
    ensures 0 <= BlockAt(i).hour < 24 && 0 <= BlockAt(i).minute < 60
    ensures TimeToBlockIndex(LocalTime(BlockAt(i).hour, BlockAt(i).minute)) == i
  {
  }

  /** A time inside the day falls in the block starting at its hour and its minute rounded down to 10. */
  lemma TimeBlockRoundTrip(t: LocalTime)
    requires StartHour <= t.hour < EndHour
    ensures 0 <= TimeToBlockIndex(t) < TotalBlocks
    ensures BlockAt(TimeToBlockIndex(t)).hour == t.hour
    ensures BlockAt(TimeToBlockIndex(t)).minute == t.minute / 10 * 10
  {
  }

  /** `blocks` is the first `|blocks|` entries of the table. */
  ghost predicate IsBlockTable(blocks: seq<TimeBlock>)
  {
    forall i :: 0 <= i < |blocks| ==> blocks[i] == BlockAt(i)
  }

  /** Entry `i = 6 * h + k` of the table is minute `10 * k` of hour `StartHour + h`. */
  lemma BlockAtOf(i: nat, h: nat, k: nat)
    requires i == 6 * h + k && k < 6
    ensures BlockAt(i).hour == StartHour + h && BlockAt(i).minute == 10 * k
  {
    assert i / 6 == h && i % 6 == k;
  }

  /** An entry is determined by its hour and minute. */
  lemma BlockAtFields(i: nat, hour: int, min: int)
    requires hour == BlockAt(i).hour && min == BlockAt(i).minute
    ensures BlockAt(i) == TimeBlock(Label(hour, min), hour, min, i)
  {
  }

  /** Every entry of the table lies inside the day. */
  lemma BlockAtRange(i: nat)
    requires i < TotalBlocks
    ensures StartHour <= BlockAt(i).hour < EndHour && 0 <= BlockAt(i).minute < 60
  {
    BlockAtOf(i, i / 6, i % 6);
  }

  /** Pushing minute `min = 10 * k` of `hour` as entry `6 * (hour - StartHour) + k` extends the table. */
  lemma PushBlock(blocks: seq<TimeBlock>, hour: int, min: int, k: nat)
    requires IsBlockTable(blocks) && StartHour <= hour && k < 6 && min == 10 * k
    requires |blocks| == (hour - StartHour) * 6 + k
    ensures IsBlockTable(blocks + [TimeBlock(Label(hour, min), hour, min, |blocks|)])
  {
    BlockAtOf(|blocks|, hour - StartHour, k);
    BlockAtFields(|blocks|, hour, min);
    var b := TimeBlock(Label(hour, min), hour, min, |blocks|);
    var ext := blocks + [b];
    forall i | 0 <= i < |ext|
      ensures ext[i] == BlockAt(i)
    {
      if i < |blocks| {
        assert ext[i] == blocks[i];
      }
    }
  }

  /** The `timeBlocks` table, built hour by hour and ten minutes at a time. */
  method BuildTimeBlocks() returns (blocks: seq<TimeBlock>)
    ensures |blocks| == TotalBlocks
    ensures IsBlockTable(blocks)
  {
    blocks := [];
    var idx := 0;
    var hour := StartHour;
    while hour < EndHour
      invariant StartHour <= hour <= EndHour
      invariant idx == |blocks| == (hour - StartHour) * 6
      invariant IsBlockTable(blocks)
    {
      var min := 0;
      ghost var k := 0;
      while min < 60
        invariant 0 <= k <= 6 && min == 10 * k
        invariant idx == |blocks| == (hour - StartHour) * 6 + k
        invariant IsBlockTable(blocks)
      {
        PushBlock(blocks, hour, min, k);
        blocks := blocks + [TimeBlock(Label(hour, min), hour, min, idx)];
        idx := idx + 1;
        min := min + 10;
        k := k + 1;
      }
      hour := hour + 1;
    }
  }

  function HasRoomId(id: int): Room -> bool
  {
    (r: Room) => r.id == id
  }

  /**
   * The column of room `roomId`: the position of the last room with that id,
   * absent when no room has it.
   */
  function RoomColumn(rooms: seq<Room>, roomId: int): (c: Option<nat>)
    ensures c.Some? ==> c.value < |rooms| && rooms[c.value].id == roomId
    ensures c.Some? ==> forall j :: c.value < j < |rooms| ==> rooms[j].id != roomId
    ensures c.None? ==> forall j :: 0 <= j < |rooms| ==> rooms[j].id != roomId
  {
    match LastWhere(rooms, HasRoomId(roomId))
    case None =>
      assert forall j :: 0 <= j < |rooms| ==> !HasRoomId(roomId)(rooms[j]);
      None
    case Some(i) =>
      assert HasRoomId(roomId)(rooms[i]);
      assert forall j :: i < j < |rooms| ==> !HasRoomId(roomId)(rooms[j]);
      Some(i)
  }

  /** `roomIdToIndex`, filled by `rooms.forEach((room, i) => ...)`. */
  method ColumnIndex(rooms: seq<Room>) returns (m: map<int, nat>)
    ensures forall id :: id in m <==> RoomColumn(rooms, id).Some?
    ensures forall id :: id in m ==> RoomColumn(rooms, id) == Some(m[id])
  {
    m := map[];
    var i := 0;
    while i < |rooms|
      invariant 0 <= i <= |rooms|
      invariant forall id :: id in m <==> RoomColumn(rooms[..i], id).Some?
      invariant forall id :: id in m ==> RoomColumn(rooms[..i], id) == Some(m[id])
    {
      assert rooms[..i + 1][..i] == rooms[..i];
      m := m[rooms[i].id := i];
      i := i + 1;
    }
    assert rooms[..i] == rooms;
  }

  /** The placement of one session; `timeOf` stands for the host's date parsing. */
  function PlacementOf(s: Session, rooms: seq<Room>, timeOf: string -> LocalTime): EventGridPlacement
  {
    EventGridPlacement(s, RoomColumn(rooms, s.roomId), TimeToBlockIndex(timeOf(s.startsAt)), TimeToBlockIndex(timeOf(s.endsAt)))
  }

  /**
   * `buildEventGridPlacements`: the `timeBlocks` table and one placement per
   * session, in session order, including sessions whose room is not listed.
   */
  method BuildEventGridPlacements(sessions: seq<Session>, rooms: seq<Room>, timeOf: string -> LocalTime)
    returns (timeBlocks: seq<TimeBlock>, placements: seq<EventGridPlacement>)
    ensures |timeBlocks| == TotalBlocks
    ensures IsBlockTable(timeBlocks)
    ensures |placements| == |sessions|
    ensures forall i :: 0 <= i < |sessions| ==> placements[i] == PlacementOf(sessions[i], rooms, timeOf)
  {
    timeBlocks := BuildTimeBlocks();
    var roomIdToIndex := ColumnIndex(rooms);
    placements := seq(|sessions|, i requires 0 <= i < |sessions| =>
      var s := sessions[i];
      EventGridPlacement(
        s,
        if s.roomId in roomIdToIndex then Some(roomIdToIndex[s.roomId]) else None,
        TimeToBlockIndex(timeOf(s.startsAt)),
        TimeToBlockIndex(timeOf(s.endsAt))));
  }
}
