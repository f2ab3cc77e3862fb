/** The event record that every other component reads: one executed shell
    command, normalised (achievements/achievements.go, HistoryEvent). */
module Events {

  datatype Option<+T> = None | Some(value: T)

  /** Hour of the local wall clock, as returned by `Time.Hour()`. */
  type Hour = h: int | 0 <= h < 24

  /** A timestamp, reduced to what the engine observes of it: an abstract
      instant (ordering and identity) and its local hour of the day. */
  datatype Time = Time(instant: int, hour: Hour)

  /** The zero value `time.Time{}`; its hour is 0. */
  const ZeroTime: Time := Time(0, 0)

  /** One normalised command. `flags` and `fileExtensions` are ordered and may
      hold duplicates; a nil slice and an empty slice are both `[]`. */
  datatype HistoryEvent = HistoryEvent(
    cmd: string,
    at: Time,
    subCommand: string,
    flags: seq<string>,
    fileExtensions: seq<string>,
    isForce: bool,
    isRmRf: bool)
}
