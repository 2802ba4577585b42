/**
  The two database tables the bot writes, as the model sees them: meeting
  transcripts keyed by `meetingId`, and caption segments under the compound
  unique key `(meetingId, start)`.
 */
module Db {
  import opened Models

  datatype SegmentKey = SegmentKey(meetingId: string, start: int)

  /** One row of the segment table. */
  datatype StoredSegment = StoredSegment(
    meetingId: string,
    start: int,
    end: int,
    text: string,
    speaker: string)
  {
    function Key(): SegmentKey { SegmentKey(meetingId, start) }
  }

  type TranscriptTable = map<string, Timestamp>

  type SegmentTable = map<SegmentKey, StoredSegment>

  /** The database behind the ORM client both storage modules share. */
  class Database {
    var transcripts: TranscriptTable
    var segments: SegmentTable

    constructor ()
      ensures transcripts == map[] && segments == map[]
    {
      transcripts := map[];
      segments := map[];
    }
  }
}
