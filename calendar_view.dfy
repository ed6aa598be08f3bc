/**
 * The computations of the calendar grid view: the overlap test, conflict
 * detection among selected sessions, the [block][room] grid of placements,
 * the per-row lookup of events starting in a 30-minute row, the row labels
 * and the border-colour rule.
 */
module CalendarView {
  import opened Wrappers
  import opened Seqs
  import opened StringOrder
  import opened Decimal
  import opened ScheduleTypes
  import opened ScheduleUtils

  // ---------------------------------------------------------------------
  // Overlap and conflicts
  // ---------------------------------------------------------------------

  /** Half-open intervals overlap; times compare as strings. */
  predicate IsOverlap(a: Session, b: Session)
  {
    Less(a.startsAt, b.endsAt) && Less(b.startsAt, a.endsAt)
  }

  /** Overlap is symmetric, and a session ending exactly when another starts does not overlap it. */
  lemma OverlapSymmetricStrict(a: Session, b: Session)
    ensures IsOverlap(a, b) <==> IsOverlap(b, a)
    ensures a.endsAt == b.startsAt ==> !IsOverlap(a, b) && !IsOverlap(b, a)
  {
    LessIrreflexive(a.endsAt);
  }

  /** A session with a non-empty interval overlaps any session with the same interval. */
  lemma SameIntervalOverlaps(a: Session, b: Session)
    requires Less(a.startsAt, a.endsAt)
    requires a.startsAt == b.startsAt && a.endsAt == b.endsAt
    ensures IsOverlap(a, b)
  {
  }

  function IdIn(ids: seq<string>): Session -> bool
  {
    (s: Session) => s.id in ids
  }

  /** `sessions.filter(s => ids.includes(s.id))`. */
  function SelectedSessions(sessions: seq<Session>, ids: seq<string>): (r: seq<Session>)
    ensures |r| <= |sessions|
    ensures forall s :: s in r <==> s in sessions && s.id in ids
  {
    Filter(sessions, IdIn(ids))
  }

  /** Session `id` is at some position of `sel` and overlaps a session at another position. */
  ghost predicate InConflict(sel: seq<Session>, id: string)
  {
    exists i, j :: 0 <= i < |sel| && 0 <= j < |sel| && i != j && sel[i].id == id && IsOverlap(sel[i], sel[j])
  }

  /** `id` belongs to an overlapping pair (p, q), p < q, visited before (i, j) in loop order. */
  ghost predicate ConflictBefore(sel: seq<Session>, i: int, j: int, id: string)
  {
    exists p, q :: 0 <= p < q < |sel| && (p < i || (p == i && q < j)) &&
                   IsOverlap(sel[p], sel[q]) && (sel[p].id == id || sel[q].id == id)
  }

  lemma AllPairsConflict(sel: seq<Session>, id: string)
    ensures ConflictBefore(sel, |sel|, 0, id) <==> InConflict(sel, id)
  {
    if ConflictBefore(sel, |sel|, 0, id) {
      var p, q :| 0 <= p < q < |sel| && IsOverlap(sel[p], sel[q]) && (sel[p].id == id || sel[q].id == id);
      OverlapSymmetricStrict(sel[p], sel[q]);
      if sel[p].id != id {
        assert sel[q].id == id && IsOverlap(sel[q], sel[p]);
      }
    }
    if InConflict(sel, id) {
      var i, j :| 0 <= i < |sel| && 0 <= j < |sel| && i != j && sel[i].id == id && IsOverlap(sel[i], sel[j]);
      OverlapSymmetricStrict(sel[i], sel[j]);
      if j < i {
        assert 0 <= j < i < |sel| && IsOverlap(sel[j], sel[i]) && sel[i].id == id;
      }
    }
  }

  /** Testing pair (i, j) adds exactly that pair to the pairs visited. */
  lemma ConflictStep(sel: seq<Session>, i: nat, j: nat)
    requires i < j < |sel|
    ensures forall id :: ConflictBefore(sel, i, j + 1, id) <==>
      ConflictBefore(sel, i, j, id) || (IsOverlap(sel[i], sel[j]) && (sel[i].id == id || sel[j].id == id))
  {
    forall id | ConflictBefore(sel, i, j + 1, id)
      ensures ConflictBefore(sel, i, j, id) || (IsOverlap(sel[i], sel[j]) && (sel[i].id == id || sel[j].id == id))
    {
      var p, q :| 0 <= p < q < |sel| && (p < i || (p == i && q < j + 1)) &&
                  IsOverlap(sel[p], sel[q]) && (sel[p].id == id || sel[q].id == id);
      if p == i && q == j {
      } else {
        assert p < i || (p == i && q < j);
      }
    }
  }

  /** Starting row i at j = i + 1 skips no pair, and finishing row i is starting row i + 1. */
  lemma ConflictRow(sel: seq<Session>, i: nat)
    requires i < |sel|
    ensures forall id :: ConflictBefore(sel, i, i + 1, id) <==> ConflictBefore(sel, i, 0, id)
    ensures forall id :: ConflictBefore(sel, i, |sel|, id) <==> ConflictBefore(sel, i + 1, 0, id)
  {
  }

  /**
   * The conflict set: empty when conflicts are hidden; otherwise the ids of
   * selected sessions that overlap a selected session at another position,
   * found by testing every pair once.
   */
  method FindConflicts(sessions: seq<Session>, selectedEventIds: seq<string>, hideConflicts: bool)
    returns (conflictIds: set<string>)
    ensures hideConflicts ==> conflictIds == {}
    ensures !hideConflicts ==>
      forall id :: id in conflictIds <==> InConflict(SelectedSessions(sessions, selectedEventIds), id)
    ensures forall id :: id in conflictIds ==>
      id in selectedEventIds && exists s :: s in sessions && s.id == id
  {
    conflictIds := {};
    if !hideConflicts {
      var sel := SelectedSessions(sessions, selectedEventIds);
      var i := 0;
      while i < |sel|
        invariant 0 <= i <= |sel|
        invariant forall id :: id in conflictIds <==> ConflictBefore(sel, i, 0, id)
      {
        ConflictRow(sel, i);
        var j := i + 1;
        while j < |sel|
          invariant i + 1 <= j <= |sel|
          invariant forall id :: id in conflictIds <==> ConflictBefore(sel, i, j, id)
        {
          ConflictStep(sel, i, j);
          if IsOverlap(sel[i], sel[j]) {
            conflictIds := conflictIds + {sel[i].id, sel[j].id};
          }
          j := j + 1;
        }
        i := i + 1;
      }
      ConflictsSelected(sessions, selectedEventIds, conflictIds);
    }
  }

  /** Visiting every pair finds exactly the conflicts, and those are ids of selected sessions. */
  lemma ConflictsSelected(sessions: seq<Session>, selectedEventIds: seq<string>, conflictIds: set<string>)
    requires forall id :: id in conflictIds <==> ConflictBefore(SelectedSessions(sessions, selectedEventIds), |SelectedSessions(sessions, selectedEventIds)|, 0, id)
    ensures forall id :: id in conflictIds <==> InConflict(SelectedSessions(sessions, selectedEventIds), id)
    ensures forall id :: id in conflictIds ==> id in selectedEventIds && exists s :: s in sessions && s.id == id
  {
    var sel := SelectedSessions(sessions, selectedEventIds);
    forall id
      ensures id in conflictIds <==> InConflict(sel, id)
    {
      AllPairsConflict(sel, id);
    }
    forall id | id in conflictIds
      ensures id in selectedEventIds && exists s :: s in sessions && s.id == id
    {
      ConflictIsSelected(sessions, selectedEventIds, id);
    }
  }

  lemma ConflictIsSelected(sessions: seq<Session>, selectedEventIds: seq<string>, id: string)
    requires InConflict(SelectedSessions(sessions, selectedEventIds), id)
    ensures id in selectedEventIds && exists s :: s in sessions && s.id == id
  {
    var sel := SelectedSessions(sessions, selectedEventIds);
    var a :| 0 <= a < |sel| && sel[a].id == id;
    var s := sel[a];
    assert s in sessions && IdIn(selectedEventIds)(s);
  }

  // ---------------------------------------------------------------------
  // The [block][room] grid
  // ---------------------------------------------------------------------

  /** The grid shows 9:00 to 18:00: 54 blocks of 10 minutes in 18 rows of 30 minutes. */
  const GridStartHour := 9
  const GridEndHour := 18
  const BlocksPerHour := 6
  const BlocksPer30Min := 3
  const GridBlocks := (GridEndHour - GridStartHour) * BlocksPerHour

  /** The fill loop writes `p` into cell (b, c). */
  predicate Covers(p: EventGridPlacement, b: int, c: nat)
  {
    p.roomIndex == Some(c) && p.startBlock <= b < p.endBlock
  }

  function CoversCell(b: int, c: nat): EventGridPlacement -> bool
  {
    (p: EventGridPlacement) => Covers(p, b, c)
  }

  /** What the fill leaves in cell (b, c): the last placement covering it, if any. */
  function CellAt(ps: seq<EventGridPlacement>, b: int, c: nat): (r: Option<EventGridPlacement>)
    ensures r.Some? ==> exists i :: 0 <= i < |ps| && ps[i] == r.value && Covers(ps[i], b, c) &&
                                    forall j :: i < j < |ps| ==> !Covers(ps[j], b, c)
    ensures r.None? ==> forall j :: 0 <= j < |ps| ==> !Covers(ps[j], b, c)
  {
    match LastWhere(ps, CoversCell(b, c))
    case None => None
    case Some(i) =>
      assert forall j :: i < j < |ps| ==> !CoversCell(b, c)(ps[j]);
      Some(ps[i])
  }

  lemma CellAtSnoc(ps: seq<EventGridPlacement>, k: nat, b: int, c: nat)
    requires k < |ps|
    ensures CellAt(ps[..k + 1], b, c) == if Covers(ps[k], b, c) then Some(ps[k]) else CellAt(ps[..k], b, c)
  {
    assert ps[..k + 1][..k] == ps[..k];
  }

  /** Placements fit in the grid: a non-empty block range lies within the 54 blocks, a column within the rooms. */
  ghost predicate FitsGrid(placements: seq<EventGridPlacement>, roomCount: nat)
  {
    forall p :: p in placements ==>
      (p.startBlock < p.endBlock ==> 0 <= p.startBlock && p.endBlock <= GridBlocks) &&
      (p.roomIndex.Some? ==> p.roomIndex.value < roomCount)
  }

  /**
   * The grid, 54 blocks by `roomCount` columns, all empty, then filled in
   * place: each placement written into its column for every block of its
   * range, later placements overwriting earlier ones; a placement without a
   * column writes nothing.
   */
  method BuildGrid(placements: seq<EventGridPlacement>, roomCount: nat)
    returns (grid: array2<Option<EventGridPlacement>>)
    requires FitsGrid(placements, roomCount)
    ensures fresh(grid)
    ensures grid.Length0 == GridBlocks && grid.Length1 == roomCount
    ensures forall b, c :: 0 <= b < GridBlocks && 0 <= c < roomCount ==> grid[b, c] == CellAt(placements, b, c)
  {
    grid := new Option<EventGridPlacement>[GridBlocks, roomCount]((b, c) => None);
    var k := 0;
    while k < |placements|
      invariant 0 <= k <= |placements|
      invariant forall b, c :: 0 <= b < GridBlocks && 0 <= c < roomCount ==> grid[b, c] == CellAt(placements[..k], b, c)
    {
      var p := placements[k];
      assert p in placements;
      var b := p.startBlock;
      while b < p.endBlock
        invariant b == p.startBlock || p.startBlock <= b <= p.endBlock
        invariant forall b', c :: 0 <= b' < GridBlocks && 0 <= c < roomCount ==>
          grid[b', c] == if p.roomIndex == Some(c) && p.startBlock <= b' < b then Some(p) else CellAt(placements[..k], b', c)
      {
        if p.roomIndex.Some? {
          grid[b, p.roomIndex.value] := Some(p);
        }
        b := b + 1;
      }
      assert p.startBlock < p.endBlock ==> b == p.endBlock;
      forall b', c | 0 <= b' < GridBlocks && 0 <= c < roomCount
        ensures grid[b', c] == CellAt(placements[..k + 1], b', c)
      {
        assert Covers(p, b', c) <==> p.roomIndex == Some(c) && p.startBlock <= b' < b;
        CellAtSnoc(placements, k, b', c);
      }
      k := k + 1;
    }
    assert placements[..k] == placements;
  }

  /**
   * The grid the view renders: placements of `sessions` in `rooms`, filled
   * into the 54-block grid. The host must place every non-empty session
   * within 9:00-18:00.
   */
  method BuildCalendarGrid(sessions: seq<Session>, rooms: seq<Room>, timeOf: string -> LocalTime)
    returns (placements: seq<EventGridPlacement>, grid: array2<Option<EventGridPlacement>>)
    requires forall s :: s in sessions ==>
      var p := PlacementOf(s, rooms, timeOf);
      p.startBlock < p.endBlock ==> 0 <= p.startBlock && p.endBlock <= GridBlocks
    ensures fresh(grid)
    ensures |placements| == |sessions|
    ensures forall i :: 0 <= i < |sessions| ==> placements[i] == PlacementOf(sessions[i], rooms, timeOf)
    ensures grid.Length0 == GridBlocks && grid.Length1 == |rooms|
    ensures forall b, c :: 0 <= b < GridBlocks && 0 <= c < |rooms| ==> grid[b, c] == CellAt(placements, b, c)
  {
    var timeBlocks;
    timeBlocks, placements := BuildEventGridPlacements(sessions, rooms, timeOf);
    forall p | p in placements
      ensures (p.startBlock < p.endBlock ==> 0 <= p.startBlock && p.endBlock <= GridBlocks) &&
              (p.roomIndex.Some? ==> p.roomIndex.value < |rooms|)
    {
      var i :| 0 <= i < |placements| && placements[i] == p;
      assert sessions[i] in sessions;
      assert p == PlacementOf(sessions[i], rooms, timeOf);
      var col := RoomColumn(rooms, sessions[i].roomId);
      assert p.roomIndex == col;
    }
    grid := BuildGrid(placements, |rooms|);
  }

  // ---------------------------------------------------------------------
  // Events starting in a 30-minute row
  // ---------------------------------------------------------------------

  /** The cell holds a placement that starts at block `b`. */
  predicate StartsAt(cell: Option<EventGridPlacement>, b: int)
  {
    cell.Some? && cell.value.startBlock == b
  }

  /**
   * The event shown in row `row`, column `col`: the placement in the first of
   * the row's three blocks whose placement starts there, if any.
   */
  method StartingEvent(grid: array2<Option<EventGridPlacement>>, row: nat, col: nat)
    returns (event: Option<EventGridPlacement>, eventBlockIdx: int)
    requires BlocksPer30Min * row + BlocksPer30Min <= grid.Length0 && col < grid.Length1
    ensures event.None? <==> forall b :: BlocksPer30Min * row <= b < BlocksPer30Min * row + BlocksPer30Min ==> !StartsAt(grid[b, col], b)
    ensures event.None? ==> eventBlockIdx == -1
    ensures event.Some? ==> BlocksPer30Min * row <= eventBlockIdx < BlocksPer30Min * row + BlocksPer30Min && grid[eventBlockIdx, col] == event &&
                            event.value.startBlock == eventBlockIdx
    ensures event.Some? ==> forall b :: BlocksPer30Min * row <= b < eventBlockIdx ==> !StartsAt(grid[b, col], b)
  {
    var blockStart := row * BlocksPer30Min;
    event, eventBlockIdx := None, -1;
    var b := 0;
    while b < BlocksPer30Min
      invariant 0 <= b <= BlocksPer30Min
      invariant forall b' :: blockStart <= b' < blockStart + b ==> !StartsAt(grid[b', col], b')
    {
      var placement := grid[blockStart + b, col];
      if placement.Some? && placement.value.startBlock == blockStart + b {
        event := placement;
        eventBlockIdx := blockStart + b;
        break;
      }
      b := b + 1;
    }
  }

  /** Some placement starts in one of the row's blocks in column `c`. */
  ghost predicate HasStartInRow(grid: array2<Option<EventGridPlacement>>, row: nat, c: nat)
    reads grid
    requires BlocksPer30Min * row + BlocksPer30Min <= grid.Length0 && c < grid.Length1
  {
    exists b :: BlocksPer30Min * row <= b < BlocksPer30Min * row + BlocksPer30Min && StartsAt(grid[b, c], b)
  }

  /**
   * `e` is the event `StartingEvent` reports for column `c` of the row: the
   * placement in the first of the row's blocks whose placement starts there.
   */
  ghost predicate RowEventAt(grid: array2<Option<EventGridPlacement>>, row: nat, c: nat, e: EventGridPlacement)
    reads grid
    requires BlocksPer30Min * row + BlocksPer30Min <= grid.Length0 && c < grid.Length1
  {
    exists b :: BlocksPer30Min * row <= b < BlocksPer30Min * row + BlocksPer30Min && grid[b, c] == Some(e) && e.startBlock == b &&
      forall b' :: BlocksPer30Min * row <= b' < b ==> !StartsAt(grid[b', c], b')
  }

  /**
   * `eventsInRow`: for each column in order, the event starting in the row
   * there, when there is one.
   */
  method EventsInRow(grid: array2<Option<EventGridPlacement>>, row: nat)
    returns (events: seq<(EventGridPlacement, nat)>)
    requires BlocksPer30Min * row + BlocksPer30Min <= grid.Length0
    ensures forall k :: 0 <= k < |events| ==> events[k].1 < grid.Length1 && HasStartInRow(grid, row, events[k].1)
    ensures forall k :: 0 <= k < |events| ==> events[k].1 < grid.Length1 && RowEventAt(grid, row, events[k].1, events[k].0)
    ensures forall k, l :: 0 <= k < l < |events| ==> events[k].1 < events[l].1
    ensures forall c :: 0 <= c < grid.Length1 && HasStartInRow(grid, row, c) ==>
      exists k :: 0 <= k < |events| && events[k].1 == c
  {
    events := [];
    var c := 0;
    while c < grid.Length1
      invariant 0 <= c <= grid.Length1
      invariant forall k :: 0 <= k < |events| ==> events[k].1 < c && HasStartInRow(grid, row, events[k].1)
      invariant forall k :: 0 <= k < |events| ==> events[k].1 < c && RowEventAt(grid, row, events[k].1, events[k].0)
      invariant forall k, l :: 0 <= k < l < |events| ==> events[k].1 < events[l].1
      invariant forall c' :: 0 <= c' < c && HasStartInRow(grid, row, c') ==>
        exists k :: 0 <= k < |events| && events[k].1 == c'
    {
      var event, blockIdx := StartingEvent(grid, row, c);
      if event.Some? {
        assert StartsAt(grid[blockIdx, c], blockIdx);
        assert RowEventAt(grid, row, c, event.value);
        ghost var prev := events;
        events := events + [(event.value, c)];
        assert forall k :: 0 <= k < |prev| ==> events[k] == prev[k];
        assert events[|events| - 1].1 == c;
      } else {
        assert !HasStartInRow(grid, row, c);
      }
      c := c + 1;
    }
  }

  /** Exactly one column has an event starting in the row. */
  ghost predicate SoloInRow(grid: array2<Option<EventGridPlacement>>, row: nat)
    reads grid
    requires BlocksPer30Min * row + BlocksPer30Min <= grid.Length0
  {
    exists c :: 0 <= c < grid.Length1 && HasStartInRow(grid, row, c) &&
      forall c' :: 0 <= c' < grid.Length1 && HasStartInRow(grid, row, c') ==> c' == c
  }

  lemma FirstTwoColumns(events: seq<(EventGridPlacement, nat)>)
    requires forall k, l :: 0 <= k < l < |events| ==> events[k].1 < events[l].1
    ensures |events| >= 2 ==> events[0].1 < events[1].1
  {
  }

  /** A complete, column-ordered list of a row's events has one entry exactly when one column has an event. */
  lemma SingleEventIsSolo(grid: array2<Option<EventGridPlacement>>, row: nat, events: seq<(EventGridPlacement, nat)>)
    requires BlocksPer30Min * row + BlocksPer30Min <= grid.Length0
    requires forall k :: 0 <= k < |events| ==> events[k].1 < grid.Length1 && HasStartInRow(grid, row, events[k].1)
    requires forall k, l :: 0 <= k < l < |events| ==> events[k].1 < events[l].1
    requires forall c :: 0 <= c < grid.Length1 && HasStartInRow(grid, row, c) ==>
      exists k :: 0 <= k < |events| && events[k].1 == c
    ensures |events| == 1 <==> SoloInRow(grid, row)
  {
    if |events| == 1 {
      var c := events[0].1;
      forall c' | 0 <= c' < grid.Length1 && HasStartInRow(grid, row, c')
        ensures c' == c
      {
        var k :| 0 <= k < |events| && events[k].1 == c';
      }
      assert HasStartInRow(grid, row, c);
    }
    if SoloInRow(grid, row) {
      var c :| 0 <= c < grid.Length1 && HasStartInRow(grid, row, c) &&
        forall c' :: 0 <= c' < grid.Length1 && HasStartInRow(grid, row, c') ==> c' == c;
      var k :| 0 <= k < |events| && events[k].1 == c;
      // a second entry would be in column c too, yet columns increase
      FirstTwoColumns(events);
    }
  }

  /** Rows a placement spans: `Math.ceil((endBlock - startBlock) / 3)`. */
  function RowSpan(p: EventGridPlacement): (r: int)
    ensures BlocksPer30Min * (r - 1) < p.endBlock - p.startBlock <= BlocksPer30Min * r
  {
    (p.endBlock - p.startBlock + 2) / BlocksPer30Min
  }

  // ---------------------------------------------------------------------
  // Border colours
  // ---------------------------------------------------------------------

  const BaseBorderColor := "#ccc"
  const BaseTopBottomColor := "#eee"
  const SoloColor := "black"
  const SelectedColor := "#52c41a"
  const ConflictColor := "#ffb3b3"
  const ActiveColor := "#1890ff"

  /** Some other session (by id) overlaps `e`. */
  predicate OverlapsAnother(sessions: seq<Session>, e: Session)
  {
    exists s :: s in sessions && s.id != e.id && IsOverlap(e, s)
  }

  /**
   * Border colours of the cell showing `event` in `row`: active beats
   * conflicting, which beats selected, which beats solo-black (the only event
   * starting in the row and overlapping no other session), which beats the
   * base colours.
   */
  method BorderColors(grid: array2<Option<EventGridPlacement>>, row: nat, event: EventGridPlacement,
                      sessions: seq<Session>, selectedEventIds: seq<string>,
                      conflictIds: set<string>, activeEventId: Option<string>)
    returns (leftRight: string, topBottom: string)
    requires BlocksPer30Min * row + BlocksPer30Min <= grid.Length0
    ensures activeEventId == Some(event.session.id) ==>
      leftRight == ActiveColor && topBottom == ActiveColor
    ensures activeEventId != Some(event.session.id) && event.session.id in conflictIds ==>
      leftRight == ConflictColor && topBottom == ConflictColor
    ensures activeEventId != Some(event.session.id) && event.session.id !in conflictIds &&
            event.session.id in selectedEventIds ==>
      leftRight == SelectedColor && topBottom == SelectedColor
    ensures activeEventId != Some(event.session.id) && event.session.id !in conflictIds &&
            event.session.id !in selectedEventIds ==>
      if SoloInRow(grid, row) && !OverlapsAnother(sessions, event.session)
      then leftRight == SoloColor && topBottom == SoloColor
      else leftRight == BaseBorderColor && topBottom == BaseTopBottomColor
  {
    var isSelected := event.session.id in selectedEventIds;
    var isConflicting := event.session.id in conflictIds;
    var isActive := activeEventId == Some(event.session.id);
    leftRight := BaseBorderColor;
    topBottom := BaseTopBottomColor;
    var eventsInRow := EventsInRow(grid, row);
    SingleEventIsSolo(grid, row, eventsInRow);
    if |eventsInRow| == 1 && !OverlapsAnother(sessions, event.session) {
      leftRight := SoloColor;
      topBottom := SoloColor;
    }
    if isSelected {
      leftRight := SelectedColor;
      topBottom := SelectedColor;
    }
    if isConflicting {
      leftRight := ConflictColor;
      topBottom := ConflictColor;
    }
    if isActive {
      leftRight := ActiveColor;
      topBottom := ActiveColor;
    }
  }

  // ---------------------------------------------------------------------
  // Row labels
  // ---------------------------------------------------------------------

  /** The hour on a 12-hour clock face: 0 and 12 read 12. */
  function TwelveHour(hour: nat): (h: nat)
    ensures 1 <= h <= 12
  {
    if hour % 12 == 0 then 12 else hour % 12
  }

  function AmPm(hour: int): string
  {
    if hour < 12 then "am" else "pm"
  }

  /** `h:mm am|pm` on the 12-hour clock. */
  function ClockText(hour: nat, minute: nat): string
  {
    Show(TwelveHour(hour)) + ":" + PadStart2(minute) + " " + AmPm(hour)
  }

  /**
   * `getTimeLabel(rowIdx)`: `h:mm am|pm` for the block at the start of the
   * row, from the 60-block `timeBlocks` table; empty when there is no such block.
   */
  function TimeLabel(rowIdx: int): (text: string)
    ensures text == "" <==> !(0 <= BlocksPer30Min * rowIdx < TotalBlocks)
  {
    var blockIdx := rowIdx * BlocksPer30Min;
    if 0 <= blockIdx < TotalBlocks then
      var block := BlockAt(blockIdx);
      ClockText(block.hour, block.minute)
    else
      ""
  }

  /** The 12-hour clock face and the am/pm half give back the hour of the day. */
  lemma TwelveHourClock(hour: nat)
    requires hour < 24
    ensures TwelveHour(hour) % 12 + (if hour < 12 then 0 else 12) == hour
  {
  }

  lemma LabelParts(h: string, m: string, suffix: string)
    requires |m| == 2 && |suffix| == 2
    ensures var text := h + ":" + m + " " + suffix;
      && |text| - 6 == |h| && text[|h|] == ':' && text[..|h|] == h
      && text[|h| + 1..|h| + 3] == m && text[|h| + 3..] == " " + suffix
  {
  }

  /** What a clock text reads back as; the shape of the guarantee of `TimeLabelReadsBack`. */
  ghost predicate ReadsBackAs(text: string, hour: nat, minute: nat)
  {
    var n := |text| - 6;
    && 1 <= n <= 2 && text[n] == ':' && text[0] != '0'
    && (forall k :: 0 <= k < n ==> IsDigit(text[k]))
    && (forall k :: n < k < n + 3 ==> IsDigit(text[k]))
    && 1 <= Value(text[..n]) <= 12
    && Value(text[..n]) % 12 + (if hour < 12 then 0 else 12) == hour
    && Value(text[n + 1..n + 3]) == minute
    && text[n + 3..] == (if hour < 12 then " am" else " pm")
  }

  /** A text assembled from an unpadded hour, two minute digits and a suffix reads back as those parts say. */
  lemma ReadsBackFromParts(h: string, m: string, hour: nat, minute: nat)
    requires 1 <= |h| <= 2 && h[0] != '0' && (forall k :: 0 <= k < |h| ==> IsDigit(h[k]))
    requires |m| == 2 && forall k :: 0 <= k < |m| ==> IsDigit(m[k])
    requires 1 <= Value(h) <= 12 && Value(h) % 12 + (if hour < 12 then 0 else 12) == hour
    requires Value(m) == minute
    ensures ReadsBackAs(h + ":" + m + " " + AmPm(hour), hour, minute)
  {
    var text := h + ":" + m + " " + AmPm(hour);
    var n := |h|;
    LabelParts(h, m, AmPm(hour));
    assert text[..n] == h && text[n + 1..n + 3] == m;
    assert text[0] == h[0];
    assert forall k :: 0 <= k < n ==> text[k] == h[k];
    assert forall k :: n < k < n + 3 ==> text[k] == m[k - n - 1];
  }

  /**
   * A clock text reads back as its time: the digits before ':' are the
   * 12-hour-clock hour without a leading zero, the two after it the minute,
   * and the suffix is " am" exactly before noon.
   */
  lemma ClockTextReadsBack(hour: nat, minute: nat)
    requires hour < 24 && minute < 60
    ensures ReadsBackAs(ClockText(hour, minute), hour, minute)
  {
    var h12 := TwelveHour(hour);
    ShowValue(h12);
    PadStart2Value(minute);
    TwelveHourClock(hour);
    ReadsBackFromParts(Show(h12), PadStart2(minute), hour, minute);
  }

  /** A row's label reads back as the time of the row's first block. */
  lemma TimeLabelReadsBack(rowIdx: int)
    requires 0 <= BlocksPer30Min * rowIdx < TotalBlocks
    ensures ReadsBackAs(TimeLabel(rowIdx), BlockAt(BlocksPer30Min * rowIdx).hour, BlockAt(BlocksPer30Min * rowIdx).minute)
  {
    var i := BlocksPer30Min * rowIdx;
    assert rowIdx * BlocksPer30Min == i;
    BlockAtRange(i);
    var block := BlockAt(i);
    assert TimeLabel(rowIdx) == ClockText(block.hour, block.minute);
    ClockTextReadsBack(block.hour, block.minute);
  }

  /** The first row is labelled "9:00 am"; rows outside the table have no label. */
  lemma TimeLabelExamples()
    ensures TimeLabel(0) == "9:00 am"
    ensures TimeLabel(20) == "" && TimeLabel(-1) == ""
  {
    assert TimeLabel(0) == ClockText(BlockAt(0).hour, BlockAt(0).minute);
    assert BlockAt(0).hour == 9 && BlockAt(0).minute == 0;
    assert ClockText(9, 0) == "9:00 am" by {
      assert TwelveHour(9) == 9 && Show(9) == "9" && PadStart2(0) == "00";
    }
  }

  /** Noon is labelled "12:00 pm", not "0:00 pm". */
  lemma TimeLabelNoon()
    ensures TimeLabel(6) == "12:00 pm"
  {
    assert BlockAt(18).hour == 12 && BlockAt(18).minute == 0;
    assert Show(12) == Show(1) + "2";
  }
}
