/**
 * Calendar events as the Calendar API returns them, the display record that
 * `format_event` builds from one, and the request body `create_event` sends.
 *
 * Instants are whole minutes (an `int`). Parsing an ISO 8601 text into an
 * instant and rendering one with `strftime` are library calls; they are passed
 * in as functions.
 */
module Events {
  import opened Wrappers

  /** An event's `start` or `end` object: `dateTime` for a timed event, `date` for an all-day one. */
  datatype EventTime = EventTime(dateTime: Option<string>, date: Option<string>)

  datatype Attendee = Attendee(email: Option<string>)

  /**
   * A calendar event. `summary` keeps its presence because its absence is
   * replaced by different defaults in different places; the fields read with
   * `get(key, '')` or `get(key, [])` use the empty value for "absent".
   */
  datatype Event = Event(
    id: string,
    start: EventTime,
    end: EventTime,
    summary: Option<string>,
    location: string,
    description: string,
    attendees: seq<Attendee>,
    htmlLink: string)

  /** The record `format_event` returns. */
  datatype FormattedEvent = FormattedEvent(
    id: string,
    summary: string,
    date: string,
    time: string,
    location: string,
    description: string,
    attendees: seq<Option<string>>,
    link: string)

  /** What Python raises when an event lacks the moment `format_event` reads. */
  datatype FormatError =
    | MissingStart  // `'T' in None`: the start has neither `dateTime` nor `date`
    | MissingEnd    // `None.replace(...)`: a timed event whose end has neither

  /** `t.get('dateTime', t.get('date'))`: the `dateTime` when the key is there, else the `date`. */
  function Moment(t: EventTime): (m: Option<string>)
    ensures t.dateTime.Some? ==> m == t.dateTime
    ensures t.dateTime.None? ==> m == t.date
  {
    if t.dateTime.Some? then t.dateTime else t.date
  }

  const AllDay := "All day"
  const NoTitle := "(No title)"

  /**
   * `format_event`. A start text without a 'T' marks an all-day event: its time
   * reads "All day" and its date is the start text itself. Otherwise the time
   * is the two clock readings joined by " - " and the date is the start's
   * calendar day. `clock` stands for `fromisoformat(...).strftime('%H:%M')`,
   * `day` for `fromisoformat(...).strftime('%Y-%m-%d')`.
   */
  function FormatEvent(e: Event, clock: string -> string, day: string -> string)
    : (r: Result<FormattedEvent, FormatError>)
    ensures r.Err? <==> Moment(e.start).None? ||
                        ('T' in Moment(e.start).value && Moment(e.end).None?)
    ensures r.Ok? && 'T' !in Moment(e.start).value ==>
              r.value.time == AllDay && r.value.date == Moment(e.start).value
    ensures r.Ok? && 'T' in Moment(e.start).value ==>
              r.value.time == clock(Moment(e.start).value) + " - " + clock(Moment(e.end).value) &&
              r.value.date == day(Moment(e.start).value)
    ensures r.Ok? ==> r.value.id == e.id
    ensures r.Ok? ==> r.value.location == e.location && r.value.description == e.description &&
                      r.value.link == e.htmlLink
    ensures r.Ok? && e.summary.None? ==> r.value.summary == NoTitle
    ensures r.Ok? && e.summary.Some? ==> r.value.summary == e.summary.value
    ensures r.Ok? ==> |r.value.attendees| == |e.attendees|
    ensures r.Ok? ==> forall i :: 0 <= i < |e.attendees| ==> r.value.attendees[i] == e.attendees[i].email
  {
    match Moment(e.start)
    case None => Err(MissingStart)
    case Some(start) =>
      if 'T' in start then
        match Moment(e.end)
        case None => Err(MissingEnd)
        case Some(end) => Ok(Shape(e, day(start), clock(start) + " - " + clock(end)))
      else
        Ok(Shape(e, start, AllDay))
  }

  /** The dictionary of `format_event` once its date and time texts are known. */
  function Shape(e: Event, date: string, time: string): FormattedEvent
  {
    FormattedEvent(
      e.id, e.summary.GetOr(NoTitle), date, time, e.location, e.description,
      seq(|e.attendees|, i requires 0 <= i < |e.attendees| => e.attendees[i].email),
      e.htmlLink)
  }

  /** The default of `create_event`'s `duration` parameter, in minutes. */
  const DefaultDuration := 60

  /**
   * `end_dt` in `create_event`: the parsed end when a non-empty end text is
   * given, otherwise the start plus `duration` minutes. `instant` stands for
   * `parse_datetime`.
   */
  function EventEnd(startAt: int, end: Option<string>, duration: int, instant: string -> int): (r: int)
    ensures end.None? || end.value == "" ==> r - startAt == duration
    ensures end.Some? && end.value != "" ==> r == instant(end.value)
  {
    if end.Some? && end.value != "" then instant(end.value) else startAt + duration
  }

  /** One end of the `event_body`: an instant and the zone it is given in. */
  datatype When = When(dateTime: int, timeZone: string)

  /** The `event_body` dictionary; optional keys are `None` when not set. */
  datatype EventBody = EventBody(
    summary: string,
    start: When,
    end: When,
    description: Option<string>,
    location: Option<string>,
    attendees: Option<seq<Attendee>>,
    sendUpdates: Option<string>)

  /**
   * The request body `create_event` builds: start and end in zone `timezone`
   * (or `defaultZone` when that is empty), and the optional keys added one by
   * one, each only when its argument is non-empty. With an attendee list the
   * body also holds `sendUpdates` set to "all".
   */
  method BuildEventBody(
    summary: string, start: string, end: Option<string>, duration: int,
    description: string, location: string, attendees: seq<string>,
    timezone: string, defaultZone: string, instant: string -> int)
    returns (body: EventBody)
    ensures var tz := if timezone != "" then timezone else defaultZone;
            body.start == When(instant(start), tz) &&
            body.end == When(EventEnd(instant(start), end, duration, instant), tz)
    ensures body.summary == summary
    ensures body.description.Some? <==> description != ""
    ensures body.description.Some? ==> body.description.value == description
    ensures body.location.Some? <==> location != ""
    ensures body.location.Some? ==> body.location.value == location
    ensures body.attendees.Some? <==> attendees != []
    ensures body.sendUpdates.Some? <==> attendees != []
    ensures body.sendUpdates.Some? ==> body.sendUpdates.value == "all"
    ensures body.attendees.Some? ==> |body.attendees.value| == |attendees|
    ensures body.attendees.Some? ==>
              forall i :: 0 <= i < |attendees| ==> body.attendees.value[i] == Attendee(Some(attendees[i]))
  {
    var tz := if timezone != "" then timezone else defaultZone;
    var startAt := instant(start);
    var endAt := EventEnd(startAt, end, duration, instant);
    body := EventBody(summary, When(startAt, tz), When(endAt, tz), None, None, None, None);
    if description != "" {
      body := body.(description := Some(description));
    }
    if location != "" {
      body := body.(location := Some(location));
    }
    if attendees != [] {
      var invited := seq(|attendees|, i requires 0 <= i < |attendees| => Attendee(Some(attendees[i])));
      body := body.(attendees := Some(invited), sendUpdates := Some("all"));
    }
  }

  /** Without an end, an event created with the default duration lasts one hour. */
  lemma DefaultEventLastsAnHour(startAt: int, instant: string -> int)
    ensures EventEnd(startAt, None, DefaultDuration, instant) == startAt + 60
  {
  }
}
