/**
 * The answer action: for a signed-in user and an existing event, the user's one answer is
 * created or overwritten with the request's status and note; an invalid status leaves the
 * stored answer as it was and is reported.
 */
module EventRsvpsController {
  import opened Wrappers
  import opened Text
  import Events
  import EventRsvps
  import opened Web

  /** The joined full error messages for a refused status: a blank one also fails presence. */
  function AlertText(status: string): (r: string)
    ensures IsBlank(status) ==> r == "Status can't be blank, Status is not included in the list"
    ensures !IsBlank(status) ==> r == "Status is not included in the list"
  {
    if IsBlank(status) then "Status can't be blank, Status is not included in the list"
    else "Status is not included in the list"
  }

  /**
   * `create`: a missing event is a 404; otherwise the answer is saved for the requester. A
   * Turbo Stream request gets 200 or 422; an HTML one is redirected to the event with a notice
   * or with the errors. A missing status parameter is the empty string.
   */
  method Create(events: seq<Events.Event>, rsvps: EventRsvps.RsvpTable, eventId: nat, currentUserId: nat,
                status: string, note: Option<string>, turbo: bool)
    returns (resp: Response)
    requires rsvps.Valid()
    modifies rsvps
    ensures rsvps.Valid()
    ensures Events.IndexOf(events, eventId).None? ==>
      resp == Status(NotFound) && rsvps.rows == old(rsvps.rows) && rsvps.broadcasts == old(rsvps.broadcasts)
    ensures Events.IndexOf(events, eventId).Some? && status !in EventRsvps.Statuses ==>
      rsvps.rows == old(rsvps.rows) && rsvps.broadcasts == old(rsvps.broadcasts)
      && resp == (if turbo then Status(Unprocessable) else Redirect(EventPage(eventId), Alert(AlertText(status))))
    ensures Events.IndexOf(events, eventId).Some? && status in EventRsvps.Statuses ==>
      resp == (if turbo then Status(Success) else Redirect(EventPage(eventId), Notice("RSVP updated.")))
      && rsvps.broadcasts == old(rsvps.broadcasts) + [eventId]
      && (match EventRsvps.Find(rsvps.rows, eventId, currentUserId)
          case Some(i) => rsvps.rows[i].status == status && rsvps.rows[i].note == note
          case None => false)
      && |rsvps.rows| == |old(rsvps.rows)| + (if EventRsvps.Find(old(rsvps.rows), eventId, currentUserId).None? then 1 else 0)
      && (match EventRsvps.Find(old(rsvps.rows), eventId, currentUserId)
          case Some(i) => rsvps.rows == old(rsvps.rows)[i := old(rsvps.rows)[i].(status := status, note := note)]
          case None => rsvps.rows == old(rsvps.rows) + [EventRsvps.Rsvp(old(rsvps.nextId), eventId, currentUserId, status, note)])
  {
    if Events.IndexOf(events, eventId).None? {
      return Status(NotFound);
    }
    var saved, rsvp := rsvps.Respond(eventId, currentUserId, status, note);
    if !saved {
      return if turbo then Status(Unprocessable) else Redirect(EventPage(eventId), Alert(AlertText(status)));
    }
    assert rsvp in rsvps.rows by {
      var f := EventRsvps.Find(old(rsvps.rows), eventId, currentUserId);
      if f.Some? {
        assert rsvps.rows[f.value] == rsvp;
      } else {
        assert rsvps.rows[|rsvps.rows| - 1] == rsvp;
      }
    }
    AnswerFound(rsvps.rows, rsvps.nextId, rsvp);
    return if turbo then Status(Success) else Redirect(EventPage(eventId), Notice("RSVP updated."));
  }

  /** In a valid table, the row of an answer is the one the lookup finds for its event and user. */
  lemma AnswerFound(rows: seq<EventRsvps.Rsvp>, nextId: nat, a: EventRsvps.Rsvp)
    requires EventRsvps.RowsValid(rows, nextId) && a in rows
    ensures EventRsvps.Find(rows, a.eventId, a.userId).Some?
    ensures rows[EventRsvps.Find(rows, a.eventId, a.userId).value] == a
  {
    var i :| 0 <= i < |rows| && rows[i] == a;
    var k := EventRsvps.Find(rows, a.eventId, a.userId).value;
    assert rows[k].eventId == rows[i].eventId && rows[k].userId == rows[i].userId;
  }

  /**
   * The action checks only that the event exists, and an answer makes an event visible: any
   * signed-in user who answers a private event by id sees it in the calendar from then on.
   */
  lemma AnswerGrantsVisibility(rows: seq<EventRsvps.Rsvp>, a: EventRsvps.Rsvp, e: Events.Event)
    requires a in rows && a.eventId == e.id
    ensures Events.IsVisibleTo(e, a.userId, rows)
  {
    var i :| 0 <= i < |rows| && rows[i] == a;
    assert EventRsvps.IsFor(rows[i], e.id, a.userId);
  }
}
