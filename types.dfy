/** The records of src/types/types.ts, with `Date` values as integer
    milliseconds since the epoch, and the raw feed entry the core reads. */
module Types {

  datatype Option<T> = None | Some(value: T)

  /** A line label with its destination; also used as a filter pattern. */
  datatype LineDest = LineDest(line: string, destination: string)

  /** One departure. Datatype equality is exactly the source's identity
      check on (time, line, destination). */
  datatype Departure = Departure(linedest: LineDest, time: int)

  /** `Station`: only `id` is read by the core; `name` and `place` are
      optional display fields. */
  datatype Station = Station(id: string, name: Option<string>, place: Option<string>)

  datatype Config = Config(
    station: Station,
    amount: int,
    darkMode: bool,
    titleBar: string,
    includeFilters: seq<LineDest>,
    excludeFilters: seq<LineDest>)

  /** The four facts the core takes from one entry of the departure feed. */
  datatype RawEntry = RawEntry(
    cancelled: bool,
    realtimeDepartureTime: int,
    lineLabel: string,  // the feed's `label`
    destination: string)
}
