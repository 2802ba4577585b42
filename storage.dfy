/**
  `saveTranscriptBatch` (`src/storage.ts`): make sure the meeting's
  transcript row exists, then upsert every segment of the batch, one write
  at a time, under the key `(meetingId, start)`.
 */
module Storage {
  import opened Wrappers
  import opened Models
  import opened Db

  /** The row an upsert of `seg` leaves behind. The key is built from the
      `meetingId` argument; a `meetingId` carried by the segment is ignored. */
  function RowOf(meetingId: string, seg: Segment): (row: StoredSegment)
    ensures row.Key() == SegmentKey(meetingId, seg.start)
    ensures row.meetingId == meetingId
  {
    StoredSegment(meetingId, seg.start, seg.end, seg.text, seg.speaker)
  }

  /** One `segment.upsert`: create the row, or overwrite `end`, `text` and `speaker`. */
  function Upsert(rows: SegmentTable, meetingId: string, seg: Segment): SegmentTable
  {
    rows[SegmentKey(meetingId, seg.start) := RowOf(meetingId, seg)]
  }

  /** One upsert writes its segment's row under `(meetingId, start)` and
      touches no other key. */
  lemma UpsertWritesOneKey(rows: SegmentTable, meetingId: string, seg: Segment)
    ensures var r := Upsert(rows, meetingId, seg);
      && SegmentKey(meetingId, seg.start) in r
      && r[SegmentKey(meetingId, seg.start)] == RowOf(meetingId, seg)
      && (forall k :: k != SegmentKey(meetingId, seg.start) ==> (k in r <==> k in rows) && (k in rows ==> r[k] == rows[k]))
  {
  }

  /** The upserts of `batch`, in order. */
  function UpsertAll(rows: SegmentTable, meetingId: string, batch: seq<Segment>): SegmentTable
    decreases |batch|
  {
    if batch == [] then rows
    else Upsert(UpsertAll(rows, meetingId, batch[..|batch| - 1]), meetingId, batch[|batch| - 1])
  }

  /** The last segment of `batch` whose `start` is `start`. */
  function LastWithStart(batch: seq<Segment>, start: int): (r: Option<Segment>)
    ensures r.Some? ==> r.value in batch && r.value.start == start
    ensures r.Some? ==> exists i :: 0 <= i < |batch| && batch[i] == r.value
                                   && (forall j :: i < j < |batch| ==> batch[j].start != start)
    ensures r.None? <==> forall i :: 0 <= i < |batch| ==> batch[i].start != start
    decreases |batch|
  {
    if batch == [] then None
    else if batch[|batch| - 1].start == start then Some(batch[|batch| - 1])
    else
      assert forall j :: 0 <= j < |batch| - 1 ==> batch[..|batch| - 1][j] == batch[j];
      LastWithStart(batch[..|batch| - 1], start)
  }

  /** Last write wins: under this meeting, a key named by the batch holds the
      row of the LAST segment with that start; every other key is untouched. */
  lemma {:induction false} UpsertAllLastWriteWins(rows: SegmentTable, meetingId: string, batch: seq<Segment>, k: SegmentKey)
    ensures var r := UpsertAll(rows, meetingId, batch);
      if k.meetingId == meetingId && LastWithStart(batch, k.start).Some? then
        k in r && r[k] == RowOf(meetingId, LastWithStart(batch, k.start).value)
      else
        (k in r <==> k in rows) && (k in rows ==> r[k] == rows[k])
    decreases |batch|
  {
    if batch != [] {
      UpsertAllLastWriteWins(rows, meetingId, batch[..|batch| - 1], k);
    }
  }

  /** Replaying a batch leaves the table as one application of it did. */
  lemma UpsertAllIdempotent(rows: SegmentTable, meetingId: string, batch: seq<Segment>)
    ensures UpsertAll(UpsertAll(rows, meetingId, batch), meetingId, batch) == UpsertAll(rows, meetingId, batch)
  {
    var once := UpsertAll(rows, meetingId, batch);
    var twice := UpsertAll(once, meetingId, batch);
    forall k | true
      ensures (k in twice <==> k in once) && (k in once ==> twice[k] == once[k])
    {
      UpsertAllLastWriteWins(rows, meetingId, batch, k);
      UpsertAllLastWriteWins(once, meetingId, batch, k);
    }
    assert twice.Keys == once.Keys;
  }

  /** An empty batch without `force` returns before touching the database. */
  predicate SkipsWrite(batch: seq<Segment>, force: bool)
  {
    |batch| == 0 && !force
  }

  /**
    How many segment upserts complete. `failAt` names the database write
    that throws: `Some(0)` the transcript upsert, `Some(j + 1)` the upsert of
    `batch[j]`; `None` means no write throws.
   */
  function CompletedUpserts(batch: seq<Segment>, failAt: Option<nat>): (n: nat)
    ensures n <= |batch|
    ensures failAt.None? ==> n == |batch|
    ensures failAt == Some(0) ==> n == 0
    ensures failAt.Some? && 0 < failAt.value <= |batch| ==> n == failAt.value - 1
  {
    match failAt
    case None => |batch|
    case Some(w) => if w == 0 then 0 else if w - 1 < |batch| then w - 1 else |batch|
  }

  /** The transcript table after the call. */
  function SavedTranscripts(transcripts: TranscriptTable, meetingId: string, createdAt: Timestamp,
                            batch: seq<Segment>, force: bool, failAt: Option<nat>): (r: TranscriptTable)
    ensures SkipsWrite(batch, force) || failAt == Some(0) ==> r == transcripts
    ensures !SkipsWrite(batch, force) && failAt != Some(0) ==> meetingId in r && r[meetingId] == createdAt
    ensures forall id :: id != meetingId ==> (id in r <==> id in transcripts)
    ensures forall id :: id != meetingId && id in r ==> r[id] == transcripts[id]
  {
    if SkipsWrite(batch, force) || failAt == Some(0) then transcripts
    else transcripts[meetingId := createdAt]
  }

  /** The segment table after the call: the upserts of a prefix of the batch,
      all of it when nothing throws. */
  function SavedSegments(rows: SegmentTable, meetingId: string, batch: seq<Segment>,
                         force: bool, failAt: Option<nat>): (r: SegmentTable)
    ensures SkipsWrite(batch, force) ==> r == rows
  {
    if SkipsWrite(batch, force) then rows
    else UpsertAll(rows, meetingId, batch[..CompletedUpserts(batch, failAt)])
  }

  /** Key by key: a skipped call keeps every row; otherwise a key of this
      meeting that the completed upserts name holds the row of the last of
      them with that start, and every other key is untouched. */
  lemma SavedSegmentsPerKey(rows: SegmentTable, meetingId: string, batch: seq<Segment>,
                            force: bool, failAt: Option<nat>, k: SegmentKey)
    ensures var r := SavedSegments(rows, meetingId, batch, force, failAt);
      var done := batch[..CompletedUpserts(batch, failAt)];
      if !SkipsWrite(batch, force) && k.meetingId == meetingId && LastWithStart(done, k.start).Some? then
        k in r && r[k] == RowOf(meetingId, LastWithStart(done, k.start).value)
      else
        (k in r <==> k in rows) && (k in rows ==> r[k] == rows[k])
  {
    if !SkipsWrite(batch, force) {
      UpsertAllLastWriteWins(rows, meetingId, batch[..CompletedUpserts(batch, failAt)], k);
    }
  }

  /** `saveTranscriptBatch(meetingId, createdAt, batch, force)`. Errors are
      caught and logged, so the call always returns normally. */
  method SaveTranscriptBatch(db: Database, meetingId: string, createdAt: Timestamp,
                             batch: seq<Segment>, force: bool, failAt: Option<nat>)
    modifies db
    ensures db.transcripts == SavedTranscripts(old(db.transcripts), meetingId, createdAt, batch, force, failAt)
    ensures db.segments == SavedSegments(old(db.segments), meetingId, batch, force, failAt)
  {
    if |batch| == 0 && !force {
      return;
    }
    if failAt == Some(0) {
      return;
    }
    db.transcripts := db.transcripts[meetingId := createdAt];
    var i := 0;
    while i < |batch|
      invariant 0 <= i <= CompletedUpserts(batch, failAt)
      invariant db.transcripts == old(db.transcripts)[meetingId := createdAt]
      invariant db.segments == UpsertAll(old(db.segments), meetingId, batch[..i])
    {
      if failAt == Some(i + 1) {
        return;
      }
      assert batch[..i + 1][..i] == batch[..i];
      db.segments := Upsert(db.segments, meetingId, batch[i]);
      i := i + 1;
    }
  }

  /** A successful save, repeated, changes nothing more. */
  lemma SaveTranscriptBatchIdempotent(transcripts: TranscriptTable, rows: SegmentTable, meetingId: string,
                                      createdAt: Timestamp, batch: seq<Segment>, force: bool)
    ensures var t1 := SavedTranscripts(transcripts, meetingId, createdAt, batch, force, None);
      SavedTranscripts(t1, meetingId, createdAt, batch, force, None) == t1
    ensures var r1 := SavedSegments(rows, meetingId, batch, force, None);
      SavedSegments(r1, meetingId, batch, force, None) == r1
  {
    assert batch[..|batch|] == batch;
    UpsertAllIdempotent(rows, meetingId, batch);
  }
}
