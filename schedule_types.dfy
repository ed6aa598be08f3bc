/**
 * The records of the agenda: rooms, sessions and speakers as loaded, and
 * the values derived from them for the grid.
 */
module ScheduleTypes {
  import opened Wrappers

  datatype Room = Room(id: int, name: string, sort: int)

  /** `startsAt` and `endsAt` are ISO timestamps kept as strings. */
  datatype Session = Session(
    id: string,
    title: string,
    description: Option<string>,
    startsAt: string,
    endsAt: string,
    roomId: int,
    speakers: seq<string>)

  datatype Speaker = Speaker(
    id: string,
    firstName: string,
    lastName: string,
    bio: Option<string>,
    tagLine: Option<string>,
    profilePicture: Option<string>,
    isTopSpeaker: bool,
    fullName: string)

  /** The schedule as handed to the core: three lists. */
  datatype ScheduleData = ScheduleData(sessions: seq<Session>, rooms: seq<Room>, speakers: seq<Speaker>)

  datatype NormalizedSchedule = NormalizedSchedule(
    rooms: seq<Room>,
    sessions: seq<Session>,
    timeSlots: seq<string>,
    roomMap: map<int, Room>,
    sessionsByRoom: map<int, seq<Session>>,
    speakerMap: map<string, Speaker>)

  /** One 10-minute slice of the day; `timeLabel` (the source's `label`, a Dafny keyword) is `HH:MM`. */
  datatype TimeBlock = TimeBlock(timeLabel: string, hour: int, minute: int, index: int)

  /**
   * Where a session sits in the grid: its room column (absent when its room
   * is not in the room list) and the half-open block range [startBlock, endBlock).
   */
  datatype EventGridPlacement = EventGridPlacement(
    session: Session,
    roomIndex: Option<nat>,
    startBlock: int,
    endBlock: int)

  type Hour = h: int | 0 <= h < 24
  type Minute = m: int | 0 <= m < 60

  /** Local hour and minute of a timestamp, as the host's date parser reports them. */
  datatype LocalTime = LocalTime(hour: Hour, minute: Minute)

  function RoomId(r: Room): int { r.id }
  function SpeakerId(s: Speaker): string { s.id }
}
