/** The `/api/announcements` routes. Like `issues`, the collection may be
    missing: list and create initialise it, delete answers 404. */
module Announcements {
  import opened Maybe
  import opened Js
  import opened Http
  import Seqs

  /** An announcement. `announcementType` is the stored `type`. */
  datatype Announcement = Announcement(
    id: int,
    title: string,
    message: string,
    announcementType: string,
    targetEmployeeId: Val,
    createdAt: int)

  function AnnouncementId(a: Announcement): int { a.id }

  const MissingFields: string := "Title and message are required"
  const NotFoundMessage: string := "Announcement not found"
  const DeletedMessage: string := "Announcement deleted successfully"
  const Company: string := "company"
  const Individual: string := "individual"

  /** The body of a create request: `type` as `announcementType`, the raw `targetEmployeeId`. */
  datatype AnnouncementBody = AnnouncementBody(title: string, message: string, announcementType: string, targetEmployeeId: Val)

  /** `POST /`. The collection is initialised before validation. The type
      defaults to "company"; the target is kept only for type "individual". */
  function Create(announcements: Option<seq<Announcement>>, body: AnnouncementBody, now: int)
    : (r: Reply<Option<seq<Announcement>>, Announcement>)
    ensures r.outcome.Ok? || r.outcome == BadRequest(MissingFields)
    ensures r.outcome.BadRequest? <==> body.title == "" || body.message == ""
    ensures r.outcome.BadRequest? ==> r.state == Some(OrEmpty(announcements))
    ensures r.outcome.Ok? ==> var a := r.outcome.value;
      && r.state == Some(OrEmpty(announcements) + [a])
      && a.id == Seqs.NextKey(OrEmpty(announcements), AnnouncementId)
      && a.title == body.title && a.message == body.message
      && a.announcementType == (if body.announcementType != "" then body.announcementType else Company)
      && a.targetEmployeeId == (if body.announcementType == Individual then body.targetEmployeeId else Null)
      && a.createdAt == now
  {
    var all := OrEmpty(announcements);
    if body.title == "" || body.message == "" then Reply(Some(all), BadRequest(MissingFields))
    else
      var a := Announcement(Seqs.NextKey(all, AnnouncementId), body.title, body.message,
                            if body.announcementType != "" then body.announcementType else Company,
                            if body.announcementType == Individual then body.targetEmployeeId else Null, now);
      Reply(Some(all + [a]), Ok(a))
  }

  function Locate(announcements: Option<seq<Announcement>>, key: Val): (i: int)
    ensures announcements.None? ==> i == -1
    ensures announcements.Some? ==> i == IndexOfKey(announcements.value, AnnouncementId, key)
  {
    if announcements.None? then -1 else IndexOfKey(announcements.value, AnnouncementId, key)
  }

  /** `DELETE /:id`. */
  function Delete(announcements: Option<seq<Announcement>>, key: Val): (r: Reply<Option<seq<Announcement>>, string>)
    ensures r.outcome == Ok(DeletedMessage) || r.outcome == NotFound(NotFoundMessage)
    ensures r.outcome.NotFound? <==> Locate(announcements, key) < 0
    ensures r.outcome.NotFound? ==> r.state == announcements
    ensures r.outcome.Ok? ==> r.state == Some(Seqs.RemoveAt(announcements.value, Locate(announcements, key)))
  {
    if announcements.None? then Reply(announcements, NotFound(NotFoundMessage))
    else
      var d := DeleteById(announcements.value, AnnouncementId, key, NotFoundMessage, DeletedMessage);
      Reply(Some(d.state), d.outcome)
  }

  predicate Valid(announcements: Option<seq<Announcement>>) {
    announcements.Some? ==> Seqs.UniqueKeys(announcements.value, AnnouncementId)
  }

  /** Any type other than exactly "individual" stores no target, even when one was sent. */
  lemma TargetOnlyForIndividual(announcements: Option<seq<Announcement>>, body: AnnouncementBody, now: int)
    requires body.title != "" && body.message != ""
    ensures var a := Create(announcements, body, now).outcome.value;
      a.targetEmployeeId != Null ==> a.announcementType == Individual
  {
  }

  lemma CreateKeepsValid(announcements: Option<seq<Announcement>>, body: AnnouncementBody, now: int)
    requires Valid(announcements)
    ensures var r := Create(announcements, body, now);
      && Valid(r.state)
      && (r.outcome.Ok? ==> Locate(r.state, Num(r.outcome.value.id)) == |OrEmpty(announcements)|)
  {
    var r := Create(announcements, body, now);
    if r.outcome.Ok? {
      Seqs.AppendNextKeepsUnique(OrEmpty(announcements), AnnouncementId, r.outcome.value);
      IndexOfOwnKey(r.state.value, AnnouncementId, |OrEmpty(announcements)|);
    }
  }

  lemma DeleteKeepsValid(announcements: Option<seq<Announcement>>, key: Val)
    requires Valid(announcements)
    ensures var r := Delete(announcements, key);
      Valid(r.state) && Locate(r.state, key) < 0
  {
    if announcements.Some? {
      DeleteRemovesExactlyOne(announcements.value, AnnouncementId, key, NotFoundMessage, DeletedMessage);
    }
  }
}
