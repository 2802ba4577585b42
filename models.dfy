/** The record shapes the bot and its storage exchange (`src/models.ts`). */
module Models {
  import opened Wrappers

  /** A point in time; the model treats `Date` values as opaque. */
  type Timestamp = int

  /**
    One speaker-attributed caption span. `start` and `end` are positions of
    the session's caption counter. The TypeScript bot also stamps each
    segment with its `meetingId` (`Some`); the legacy bot does not (`None`).
   */
  datatype Segment = Segment(
    speaker: string,
    text: string,
    start: int,
    end: int,
    meetingId: Option<string>)

  /** `MeetingTranscript`: what the legacy `saveTranscript` receives. */
  datatype Transcript = Transcript(meetingId: string, createdAt: Timestamp, segments: seq<Segment>)

  /** One `(speaker, text)` call of the page-side `onCaption` hook. */
  datatype CaptionEvent = CaptionEvent(speaker: string, text: string)

  /** The JSON body the bot posts to `/bot-done`; an unset `JOB_ID` is `None`. */
  datatype BotDone = BotDone(jobId: Option<string>, meetingId: string)
}
