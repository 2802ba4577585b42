/**
  The request checks of the backend (`src/backend/server.ts`): the Meet
  link validator, and the field guards that `/submit-link` and `/bot-done`
  apply before they touch the database or launch anything.
 */
module Server {
  import opened Wrappers
  import opened Text
  import opened Models
  import Session

  /** The literal prefix of the anchored pattern `^https:\/\/meet\.google\.com`. */
  const MEET_PREFIX: string := "https://meet.google.com"

  /** `validateMeetLink(url)`. */
  predicate ValidateMeetLink(url: string)
  {
    StartsWith(url, MEET_PREFIX)
  }

  /** The link is valid exactly when it begins with the prefix; nothing after it is checked. */
  lemma ValidateMeetLinkIff(url: string)
    ensures ValidateMeetLink(url) <==> exists rest :: url == MEET_PREFIX + rest
  {
    if ValidateMeetLink(url) {
      assert url == MEET_PREFIX + url[|MEET_PREFIX|..];
    }
    forall rest | url == MEET_PREFIX + rest ensures ValidateMeetLink(url) {
      assert url[..|MEET_PREFIX|] == MEET_PREFIX;
    }
  }

  /** A look-alike host passes; plain `http` does not. */
  lemma ValidateMeetLinkExamples()
    ensures ValidateMeetLink("https://meet.google.com.x")
    ensures ValidateMeetLink("https://meet.google.com/abc-defg-hij")
    ensures !ValidateMeetLink("http://meet.google.com")
  {
    ValidateMeetLinkIff("https://meet.google.com.x");
    assert "https://meet.google.com.x" == MEET_PREFIX + ".x";
    ValidateMeetLinkIff("https://meet.google.com/abc-defg-hij");
    assert "https://meet.google.com/abc-defg-hij" == MEET_PREFIX + "/abc-defg-hij";
    assert "http://meet.google.com"[4] != MEET_PREFIX[4];
  }

  /** A JSON body field that is truthy: present and not the empty string. */
  predicate Present(field: Option<string>)
  {
    field.Some? && field.value != []
  }

  datatype Response = Response(status: nat, body: string)

  /** The side effects a handler performs, in order. */
  datatype Action =
    | JobCreated(url: string)
    | BotLaunched(url: string)
    | StatusUpdated(jobId: string, status: string)

  datatype Outcome = Outcome(response: Response, actions: seq<Action>)

  /**
    `POST /submit-link` with body field `url`. `createFails` and
    `launchFails` say whether `createMeetingJob` or `launchBotContainer`
    throws; job ids are opaque and not modelled.
   */
  function SubmitLink(url: Option<string>, createFails: bool, launchFails: bool): (o: Outcome)
    ensures !Present(url) ==> o == Outcome(Response(400, "Missing the URL"), [])
    ensures Present(url) && !ValidateMeetLink(url.value) ==> o == Outcome(Response(400, "Invalid link"), [])
    ensures o.actions != [] ==> Present(url) && ValidateMeetLink(url.value) && o.actions[0] == JobCreated(url.value)
    ensures o.response.status == 200 <==> Present(url) && ValidateMeetLink(url.value) && !createFails && !launchFails
    ensures o.response.status in {200, 400, 500}
  {
    if !Present(url) then Outcome(Response(400, "Missing the URL"), [])
    else if !ValidateMeetLink(url.value) then Outcome(Response(400, "Invalid link"), [])
    else if createFails then Outcome(Response(500, "Failed to launch bot"), [])
    else if launchFails then Outcome(Response(500, "Failed to launch bot"), [JobCreated(url.value)])
    else Outcome(Response(200, "Bot started for meeting"), [JobCreated(url.value), BotLaunched(url.value)])
  }

  /** The missing-URL check comes first: without a URL the answer never
      mentions link validity, whatever else happens. */
  lemma MissingUrlBeforeValidation(createFails: bool, launchFails: bool)
    ensures SubmitLink(None, createFails, launchFails).response == Response(400, "Missing the URL")
    ensures SubmitLink(Some(""), createFails, launchFails).response == Response(400, "Missing the URL")
  {
  }

  /** A bot is launched only for a validated link, after its job was created. */
  lemma LaunchOnlyForValidLinks(url: Option<string>, createFails: bool, launchFails: bool)
    ensures var actions := SubmitLink(url, createFails, launchFails).actions;
      forall i :: 0 <= i < |actions| && actions[i].BotLaunched? ==>
        && Present(url) && ValidateMeetLink(url.value) && actions[i].url == url.value
        && !createFails && 0 < i && actions[i - 1] == JobCreated(url.value)
  {
  }

  /** The guard at the top of `POST /bot-done`: `Some(400)` when `jobId` or
      `meetingId` is missing, `None` when the handler goes on. */
  function BotDoneGuard(jobId: Option<string>, meetingId: Option<string>): (r: Option<Response>)
    ensures r.None? <==> Present(jobId) && Present(meetingId)
    ensures r.Some? ==> r.value == Response(400, "Missing fields")
  {
    if !Present(jobId) || !Present(meetingId) then Some(Response(400, "Missing fields")) else None
  }

  /**
    `POST /bot-done` up to its first write: the guard's 400, or the call
    `updateMeetingStatus(jobId, "transcript_saved", meetingId)` the handler
    makes next. What follows (summarising and the later writes) is not part
    of this model.
   */
  function BotDoneFirstStep(jobId: Option<string>, meetingId: Option<string>): (r: Result<Action, Response>)
    ensures r.Failure? <==> !Present(jobId) || !Present(meetingId)
    ensures r.Failure? ==> r.error == Response(400, "Missing fields")
    ensures r.Success? ==> r.value == StatusUpdated(jobId.value, "transcript_saved")
  {
    match BotDoneGuard(jobId, meetingId)
    case Some(rejected) => Failure(rejected)
    case None => Success(StatusUpdated(jobId.value, "transcript_saved"))
  }

  /** The body the bots post, as the handler reads it. */
  function Fields(body: BotDone): (Option<string>, Option<string>)
  {
    (body.jobId, Some(body.meetingId))
  }

  /** Every completion notice of the TypeScript bot passes the guard. */
  lemma SessionNoticePassesGuard(jobId: Option<string>, meetingId: string)
    requires meetingId != []
    ensures forall e :: e in Session.NotifyEffects(jobId, meetingId) ==>
      BotDoneGuard(Fields(e.body).0, Fields(e.body).1).None?
  {
  }

  /** The legacy bot posts even when `JOB_ID` is unset; that notice is rejected. */
  lemma LegacyNoticeWithoutJobRejected(meetingId: string)
    ensures BotDoneGuard(Fields(BotDone(None, meetingId)).0, Fields(BotDone(None, meetingId)).1)
         == Some(Response(400, "Missing fields"))
  {
  }
}
