/** The records the availability core works on: the User and Event structs and the
    CalculateAvailability object with its already-loaded state (availability.rb, lines 4-19). */
module Types {

  datatype Option<+T> = None | Some(value: T)

  datatype Result<+T, +E> = Ok(value: T) | Err(error: E)

  /** A Ruby Range of two instants, used both for a 15-minute block of the working day
      (`time_block`) and for the open range being merged (`current_range`).
      Instants are integer seconds on a UTC axis. */
  datatype TimeRange = TimeRange(begin: int, end: int)

  /** `Event = Struct.new(:user_id, :start_time, :end_time)`; the times are instants in seconds. */
  datatype Event = Event(userId: int, start: int, end: int)

  /** `User = Struct.new(:id, :name, :events)`, with the events already attached by the loader. */
  datatype User = User(id: int, name: string, events: seq<Event>)

  /** The state of a `CalculateAvailability` once it is initialised: the values of the user map in
      insertion order, the requested names, and the hours (`Time#hour`) of the two work-hour
      arguments. None of it changes while `perform` runs. */
  datatype Calculator = Calculator(users: seq<User>, searchNames: seq<string>, workStart: int, workEnd: int)

  function Last<T>(s: seq<T>): T
    requires |s| > 0
  {
    s[|s| - 1]
  }
}
