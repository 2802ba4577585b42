/**
  The legacy `saveTranscript` (`src/storage.js`): upsert the transcript row,
  then insert the segments in one `createMany` with `skipDuplicates`, which
  leaves every row that already exists as it was.
 */
module LegacyStorage {
  import opened Wrappers
  import opened Models
  import opened Db
  import Storage

  /** `segments.map(...)`: the rows to insert, each stamped with the transcript's `meetingId`. */
  function ParseSegments(meetingId: string, segments: seq<Segment>): (rows: seq<StoredSegment>)
    ensures |rows| == |segments|
    ensures forall i :: 0 <= i < |rows| ==> rows[i].meetingId == meetingId
    ensures forall i :: 0 <= i < |rows| ==>
      rows[i] == StoredSegment(meetingId, segments[i].start, segments[i].end, segments[i].text, segments[i].speaker)
  {
    seq(|segments|, i requires 0 <= i < |segments| =>
      StoredSegment(meetingId, segments[i].start, segments[i].end, segments[i].text, segments[i].speaker))
  }

  /** `createMany({ data, skipDuplicates: true })`: each row is inserted
      unless its key is already taken, by an old row or an earlier one of `data`. */
  function InsertMissing(rows: SegmentTable, data: seq<StoredSegment>): SegmentTable
    decreases |data|
  {
    if data == [] then rows
    else
      var next := if data[0].Key() in rows then rows else rows[data[0].Key() := data[0]];
      InsertMissing(next, data[1..])
  }

  /** The first row of `data` with key `k`. */
  function FirstWithKey(data: seq<StoredSegment>, k: SegmentKey): (r: Option<StoredSegment>)
    ensures r.Some? ==> r.value in data && r.value.Key() == k
    ensures r.Some? ==> exists i :: 0 <= i < |data| && data[i] == r.value
                                   && (forall j :: 0 <= j < i ==> data[j].Key() != k)
    ensures r.None? <==> forall i :: 0 <= i < |data| ==> data[i].Key() != k
    decreases |data|
  {
    if data == [] then None
    else if data[0].Key() == k then Some(data[0])
    else
      var r := FirstWithKey(data[1..], k);
      assert forall j :: 1 <= j < |data| ==> data[1..][j - 1] == data[j];
      assert r.Some? ==> exists i :: 0 <= i < |data| && data[i] == r.value
                                     && (forall j :: 0 <= j < i ==> data[j].Key() != k) by {
        if r.Some? {
          var i :| 0 <= i < |data| - 1 && data[1..][i] == r.value
                   && (forall j :: 0 <= j < i ==> data[1..][j].Key() != k);
          assert data[i + 1] == r.value;
          assert forall j :: 0 <= j < i + 1 ==> data[j].Key() != k by {
            forall j | 0 <= j < i + 1 ensures data[j].Key() != k {
              if j > 0 { assert data[j] == data[1..][j - 1]; }
            }
          }
        }
      }
      r
  }

  /** First write wins: an existing row is never overwritten, and a missing
      key receives the first row of `data` that carries it. */
  lemma {:induction false} InsertMissingFirstWriteWins(rows: SegmentTable, data: seq<StoredSegment>, k: SegmentKey)
    ensures var r := InsertMissing(rows, data);
      if k in rows then k in r && r[k] == rows[k]
      else (k in r <==> FirstWithKey(data, k).Some?) && (k in r ==> r[k] == FirstWithKey(data, k).value)
    decreases |data|
  {
    if data != [] {
      var next := if data[0].Key() in rows then rows else rows[data[0].Key() := data[0]];
      InsertMissingFirstWriteWins(next, data[1..], k);
    }
  }

  /** No existing row is changed or removed by the insert. */
  lemma InsertMissingKeepsRows(rows: SegmentTable, data: seq<StoredSegment>)
    ensures forall k :: k in rows ==> k in InsertMissing(rows, data) && InsertMissing(rows, data)[k] == rows[k]
  {
    forall k | k in rows ensures k in InsertMissing(rows, data) && InsertMissing(rows, data)[k] == rows[k] {
      InsertMissingFirstWriteWins(rows, data, k);
    }
  }

  /** When every key of `data` is taken, the insert changes nothing. */
  lemma {:induction false} InsertMissingAllPresent(rows: SegmentTable, data: seq<StoredSegment>)
    requires forall i :: 0 <= i < |data| ==> data[i].Key() in rows
    ensures InsertMissing(rows, data) == rows
    decreases |data|
  {
    if data != [] {
      InsertMissingAllPresent(rows, data[1..]);
    }
  }

  /** After the insert, every key of `data` is taken. */
  lemma InsertMissingCovers(rows: SegmentTable, data: seq<StoredSegment>)
    ensures forall i :: 0 <= i < |data| ==> data[i].Key() in InsertMissing(rows, data)
  {
    forall i | 0 <= i < |data| ensures data[i].Key() in InsertMissing(rows, data) {
      InsertMissingFirstWriteWins(rows, data, data[i].Key());
    }
  }

  /** Where the call can throw: the transcript upsert, or the `createMany`
      (a single statement, so it inserts all of its rows or none). */
  datatype Failure = NoFailure | TranscriptUpsertFails | CreateManyFails

  /** The transcript table after `saveTranscript(t)`: the meeting's row is
      upserted first, so only a failure of that upsert leaves it as it was. */
  function SavedTranscripts(transcripts: TranscriptTable, t: Transcript, failure: Failure): (r: TranscriptTable)
    ensures failure == TranscriptUpsertFails ==> r == transcripts
    ensures failure != TranscriptUpsertFails ==> t.meetingId in r && r[t.meetingId] == t.createdAt
    ensures forall id :: id != t.meetingId ==> (id in r <==> id in transcripts)
    ensures forall id :: id != t.meetingId && id in r ==> r[id] == transcripts[id]
  {
    if failure == TranscriptUpsertFails then transcripts else transcripts[t.meetingId := t.createdAt]
  }

  /** The segment table after `saveTranscript(t)`. */
  function SavedSegments(rows: SegmentTable, t: Transcript, failure: Failure): (r: SegmentTable)
    ensures |t.segments| == 0 ==> r == rows
    ensures failure != NoFailure ==> r == rows
    ensures forall k :: k in rows ==> k in r && r[k] == rows[k]
  {
    InsertMissingKeepsRows(rows, ParseSegments(t.meetingId, t.segments));
    if failure != NoFailure || |t.segments| == 0 then rows
    else InsertMissing(rows, ParseSegments(t.meetingId, t.segments))
  }

  /** `saveTranscript(t)`; the returned flag is false when the promise rejects. */
  method SaveTranscript(db: Database, t: Transcript, failure: Failure) returns (ok: bool)
    modifies db
    ensures ok <==> failure == NoFailure || (failure == CreateManyFails && |t.segments| == 0)
    ensures db.transcripts == SavedTranscripts(old(db.transcripts), t, failure)
    ensures db.segments == SavedSegments(old(db.segments), t, failure)
  {
    if failure == TranscriptUpsertFails {
      return false;
    }
    db.transcripts := db.transcripts[t.meetingId := t.createdAt];
    if |t.segments| > 0 {
      var parsed := ParseSegments(t.meetingId, t.segments);
      if failure == CreateManyFails {
        return false;
      }
      db.segments := InsertMissing(db.segments, parsed);
    }
    return true;
  }

  /** Repeating a successful call leaves the tables as they were after the first. */
  lemma SaveTranscriptIdempotent(transcripts: TranscriptTable, rows: SegmentTable, t: Transcript)
    ensures var once := SavedTranscripts(transcripts, t, NoFailure);
      SavedTranscripts(once, t, NoFailure) == once
    ensures var once := SavedSegments(rows, t, NoFailure);
      SavedSegments(once, t, NoFailure) == once
  {
    var data := ParseSegments(t.meetingId, t.segments);
    InsertMissingCovers(rows, data);
    InsertMissingAllPresent(InsertMissing(rows, data), data);
  }

  /** Rows written by the legacy call carry the transcript's `meetingId`. */
  lemma SavedRowsCarryMeetingId(rows: SegmentTable, t: Transcript, k: SegmentKey)
    requires k !in rows
    ensures var r := SavedSegments(rows, t, NoFailure);
      k in r ==> r[k].meetingId == t.meetingId && k.meetingId == t.meetingId
  {
    if |t.segments| > 0 {
      InsertMissingFirstWriteWins(rows, ParseSegments(t.meetingId, t.segments), k);
    }
  }

  /** The two storage paths disagree on a taken key: the batch upsert
      overwrites the stored row, the legacy insert keeps it. */
  lemma UpsertOverwritesWhereInsertKeeps(rows: SegmentTable, meetingId: string, createdAt: Timestamp, seg: Segment)
    requires SegmentKey(meetingId, seg.start) in rows
    requires rows[SegmentKey(meetingId, seg.start)] != Storage.RowOf(meetingId, seg)
    ensures var k := SegmentKey(meetingId, seg.start);
      && Storage.SavedSegments(rows, meetingId, [seg], false, None)[k] == Storage.RowOf(meetingId, seg)
      && SavedSegments(rows, Transcript(meetingId, createdAt, [seg]), NoFailure)[k] == rows[k]
      && Storage.SavedSegments(rows, meetingId, [seg], false, None) != SavedSegments(rows, Transcript(meetingId, createdAt, [seg]), NoFailure)
  {
    var k := SegmentKey(meetingId, seg.start);
    assert [seg][..1] == [seg];
    Storage.UpsertAllLastWriteWins(rows, meetingId, [seg], k);
  }
}
