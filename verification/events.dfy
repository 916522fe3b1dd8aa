/** The records the timeline works on. */
module Events {
  import opened Categories

  /** Which side of the centre line an event card is drawn on. */
  datatype Side = Left | Right {
    function Flip(): Side {
      if this == Left then Right else Left
    }
  }

  /** One spreadsheet row after conversion. `url` is `""` when absent. */
  datatype TimelineEvent = TimelineEvent(
    date: string,
    title: string,
    description: string,
    category: Category,
    url: string,
    side: Side)

  /** An event together with what parsing its date yields: the time stamp in
      milliseconds and the calendar year. Date parsing belongs to the host
      runtime, so both values are supplied with the event. */
  datatype Dated = Dated(event: TimelineEvent, timestamp: int, year: int)

  /** An element of the sorted list: a visible event, its index in the
      filtered list, and its parsed date. */
  datatype Annotated = Annotated(event: TimelineEvent, originalIndex: nat, timestamp: int, year: int)

  /** An annotated event with its vertical offset in pixels. */
  datatype Positioned = Positioned(item: Annotated, position: int)
}
