/**
  The legacy JavaScript bot (`src/playwright/runBot.js`): a page-side
  observer that forwards each new caption once, a capture hook that appends
  one segment per non-blank caption, and a polling timer that stops on
  idleness or total running time, saves the transcript and notifies the
  backend.
 */
module LegacyBot {
  import opened Wrappers
  import opened Text
  import opened Models
  import opened Db
  import opened Dom
  import LegacyStorage
  import Bridge

  /** The speaker assumed before any badge has been read. */
  const UNKNOWN_SPEAKER: string := "Unknown Speaker"

  /** The legacy observer reads only the `.NWpY1d` badge. */
  const SPEAKER_CLASS: set<BadgeClass> := {NWpY1d}

  /** `MAX_IDLE_TIME` and `MAX_TOTAL_TIME`, in milliseconds. */
  const MAX_IDLE_TIME: int := 30000
  const MAX_TOTAL_TIME: int := 6000000

  // ---------------------------------------------------------------------
  // The page-side observer (`handleNode`)
  // ---------------------------------------------------------------------

  /** The observer's closure: the last known speaker and every caption sent so far. */
  datatype ObserverState = ObserverState(lastKnownSpeaker: string, seenCaptions: set<string>)

  const INITIAL_OBSERVER: ObserverState := ObserverState(UNKNOWN_SPEAKER, {})

  /** The speaker of a node: the first `.NWpY1d` badge's trimmed text, or the
      last known speaker when there is no badge or its text is blank. */
  function NodeSpeaker(node: CaptionNode, lastKnownSpeaker: string): (spk: string)
    ensures FirstBadge(node, SPEAKER_CLASS).None? ==> spk == lastKnownSpeaker
    ensures FirstBadge(node, SPEAKER_CLASS).Some? && Trim(FirstBadge(node, SPEAKER_CLASS).value) != [] ==>
      spk == Trim(FirstBadge(node, SPEAKER_CLASS).value)
    ensures FirstBadge(node, SPEAKER_CLASS).Some? && Trim(FirstBadge(node, SPEAKER_CLASS).value) == [] ==>
      spk == lastKnownSpeaker
    ensures lastKnownSpeaker != [] ==> spk != []
  {
    match FirstBadge(node, SPEAKER_CLASS)
    case None => lastKnownSpeaker
    case Some(badge) => if Trim(badge) != [] then Trim(badge) else lastKnownSpeaker
  }

  /** The caption of a node: its trimmed text once the first `.NWpY1d` badge
      (and only that one) has been removed from a clone. */
  function NodeCaption(node: CaptionNode): (caption: string)
    ensures Trim(caption) == caption
    ensures exists i :: OccursAt(TextContent(RemoveFirstBadge(node, SPEAKER_CLASS)), caption, i)
    ensures caption == [] <==> AllSpaces(TextContent(RemoveFirstBadge(node, SPEAKER_CLASS)))
  {
    TrimIdempotent(TextContent(RemoveFirstBadge(node, SPEAKER_CLASS)));
    TrimShape(TextContent(RemoveFirstBadge(node, SPEAKER_CLASS)));
    Trim(TextContent(RemoveFirstBadge(node, SPEAKER_CLASS)))
  }

  /** What one `handleNode(node)` does: the `onCaption` call it makes, if
      any, and the new closure. */
  datatype HandleResult = HandleResult(delivered: Option<CaptionEvent>, next: ObserverState)

  function HandleStep(st: ObserverState, node: CaptionNode): (r: HandleResult)
    ensures r.delivered.Some? <==>
      var caption := NodeCaption(node);
      caption != [] && Lower(caption) != Lower(NodeSpeaker(node, st.lastKnownSpeaker)) && caption !in st.seenCaptions
    ensures r.delivered.Some? ==>
      && r.delivered.value == CaptionEvent(NodeSpeaker(node, st.lastKnownSpeaker), NodeCaption(node))
      && r.next.seenCaptions == st.seenCaptions + {NodeCaption(node)}
    ensures r.delivered.None? ==> r.next.seenCaptions == st.seenCaptions
    ensures var spk := NodeSpeaker(node, st.lastKnownSpeaker);
      r.next.lastKnownSpeaker == if spk != UNKNOWN_SPEAKER then spk else st.lastKnownSpeaker
  {
    var spk := NodeSpeaker(node, st.lastKnownSpeaker);
    var last := if spk != UNKNOWN_SPEAKER then spk else st.lastKnownSpeaker;
    var caption := NodeCaption(node);
    if caption != [] && Lower(caption) != Lower(spk) && caption !in st.seenCaptions then
      HandleResult(Some(CaptionEvent(spk, caption)), ObserverState(last, st.seenCaptions + {caption}))
    else
      HandleResult(None, ObserverState(last, st.seenCaptions))
  }

  /** A badge that literally reads "Unknown Speaker" is used for its own
      caption but does not replace the last known speaker. */
  lemma UnknownBadgeKeepsLastSpeaker(st: ObserverState, node: CaptionNode)
    requires FirstBadge(node, SPEAKER_CLASS) == Some(UNKNOWN_SPEAKER)
    ensures NodeSpeaker(node, st.lastKnownSpeaker) == UNKNOWN_SPEAKER
    ensures HandleStep(st, node).next.lastKnownSpeaker == st.lastKnownSpeaker
  {
    TrimOfSolid(UNKNOWN_SPEAKER);
  }

  /** No fragment of the node is a `.xoMHSc` badge, the class only the
      TypeScript bot also reads. */
  predicate NoSecondClassBadge(node: CaptionNode)
  {
    forall i :: 0 <= i < |node| ==> !Matches(node[i], {XoMHSc})
  }

  /** On a node without `.xoMHSc` badges the two bots resolve the same
      speaker from the same fallback. */
  lemma SpeakerReadsAgree(node: CaptionNode, lastSpeaker: string)
    requires NoSecondClassBadge(node)
    ensures NodeSpeaker(node, lastSpeaker) == Bridge.GetSpeaker(node, lastSpeaker)
  {
    SameMatchesSameReads(node, SPEAKER_CLASS, Bridge.BADGE_CLASSES);
  }

  /** With at most one badge, and none of class `.xoMHSc`, the legacy caption
      (first badge removed) is the TypeScript one (every badge removed). */
  lemma CaptionReadsAgree(node: CaptionNode)
    requires NoSecondClassBadge(node)
    requires forall i, j :: 0 <= i < j < |node| && node[i].Badge? ==> !node[j].Badge?
    ensures NodeCaption(node) == Bridge.GetText(node)
  {
    SameMatchesSameReads(node, SPEAKER_CLASS, Bridge.BADGE_CLASSES);
    SingleMatchRemoval(node, SPEAKER_CLASS);
  }

  /** A node that repeats its speaker badge. */
  const REPEATED_BADGE: CaptionNode := [Badge(NWpY1d, "Ann"), Plain("hi"), Badge(NWpY1d, "Ann")]

  /** The legacy bot removes only the first badge, so the second one's text
      stays in the caption. */
  lemma RepeatedBadgeLegacyCaption()
    ensures NodeCaption(REPEATED_BADGE) == "hiAnn"
  {
    TrimOfSolid("hiAnn");
    RepeatedBadgeLegacyText();
  }

  lemma RepeatedBadgeLegacyText()
    ensures TextContent(RemoveFirstBadge(REPEATED_BADGE, SPEAKER_CLASS)) == "hiAnn"
  {
    var rest := [Plain("hi"), Badge(NWpY1d, "Ann")];
    assert RemoveFirstBadge(REPEATED_BADGE, SPEAKER_CLASS) == rest;
    assert rest[1..] == [Badge(NWpY1d, "Ann")];
  }

  /** The TypeScript bot removes every badge and reads only the plain text. */
  lemma RepeatedBadgeBridgeText()
    ensures Bridge.GetText(REPEATED_BADGE) == "hi"
  {
    var node := REPEATED_BADGE;
    assert node[1..] == [Plain("hi"), Badge(NWpY1d, "Ann")];
    assert node[1..][1..] == [Badge(NWpY1d, "Ann")];
    assert RemoveBadges(node, Bridge.BADGE_CLASSES) == [Plain("hi")];
    assert TextContent([Plain("hi")]) == "hi";
    TrimOfSolid("hi");
  }

  /** The observer as an object over its closure. */
  class LegacyObserver {
    var lastKnownSpeaker: string
    var seenCaptions: set<string>

    function State(): ObserverState
      reads this
    {
      ObserverState(lastKnownSpeaker, seenCaptions)
    }

    constructor ()
      ensures State() == INITIAL_OBSERVER
    {
      lastKnownSpeaker := UNKNOWN_SPEAKER;
      seenCaptions := {};
    }

    /** `handleNode(node)`; the returned event is the `onCaption` call it makes, if any. */
    method HandleNode(node: CaptionNode) returns (delivered: Option<CaptionEvent>)
      modifies this
      ensures HandleResult(delivered, State()) == HandleStep(old(State()), node)
    {
      var speaker := NodeSpeaker(node, lastKnownSpeaker);
      if speaker != UNKNOWN_SPEAKER {
        lastKnownSpeaker := speaker;
      }
      var caption := NodeCaption(node);
      delivered := None;
      if caption != [] && Lower(caption) != Lower(speaker) && caption !in seenCaptions {
        seenCaptions := seenCaptions + {caption};
        delivered := Some(CaptionEvent(speaker, caption));
      }
    }
  }

  /** The `onCaption` calls made while the observer handles `nodes` in turn. */
  function Deliveries(st: ObserverState, nodes: seq<CaptionNode>): seq<CaptionEvent>
    decreases |nodes|
  {
    if nodes == [] then []
    else
      var r := HandleStep(st, nodes[0]);
      (if r.delivered.Some? then [r.delivered.value] else []) + Deliveries(r.next, nodes[1..])
  }

  function FinalObserver(st: ObserverState, nodes: seq<CaptionNode>): ObserverState
    decreases |nodes|
  {
    if nodes == [] then st else FinalObserver(HandleStep(st, nodes[0]).next, nodes[1..])
  }

  /** No caption already seen is sent again, and no blank one is sent. */
  lemma {:induction false} DeliveriesUnseen(st: ObserverState, nodes: seq<CaptionNode>)
    ensures forall i :: 0 <= i < |Deliveries(st, nodes)| ==>
      Deliveries(st, nodes)[i].text !in st.seenCaptions && Deliveries(st, nodes)[i].text != []
    decreases |nodes|
  {
    if nodes != [] {
      var r := HandleStep(st, nodes[0]);
      var rest := Deliveries(r.next, nodes[1..]);
      DeliveriesUnseen(r.next, nodes[1..]);
      assert st.seenCaptions <= r.next.seenCaptions;
      var d := Deliveries(st, nodes);
      if r.delivered.Some? {
        var caption := NodeCaption(nodes[0]);
        assert r.delivered.value.text == caption && caption != [] && caption !in st.seenCaptions;
        assert d == [r.delivered.value] + rest;
        forall i | 0 <= i < |d| ensures d[i].text !in st.seenCaptions && d[i].text != [] {
          if i > 0 { assert d[i] == rest[i - 1]; }
        }
      } else {
        assert d == rest;
      }
    }
  }

  /** The dedup promise of `seenCaptions`: over any run, no caption text is sent twice. */
  lemma {:induction false} DeliveriesDistinct(st: ObserverState, nodes: seq<CaptionNode>)
    ensures forall i, j :: 0 <= i < j < |Deliveries(st, nodes)| ==>
      Deliveries(st, nodes)[i].text != Deliveries(st, nodes)[j].text
    decreases |nodes|
  {
    if nodes != [] {
      var r := HandleStep(st, nodes[0]);
      var rest := Deliveries(r.next, nodes[1..]);
      DeliveriesDistinct(r.next, nodes[1..]);
      if r.delivered.Some? {
        DeliveriesUnseen(r.next, nodes[1..]);
        assert Deliveries(st, nodes) == [r.delivered.value] + rest;
        ConsDistinct(r.delivered.value, rest, r.next.seenCaptions);
      } else {
        assert Deliveries(st, nodes) == rest;
      }
    }
  }

  /** A seen caption followed by distinct unseen ones gives distinct texts. */
  lemma ConsDistinct(x: CaptionEvent, rest: seq<CaptionEvent>, seen: set<string>)
    requires x.text in seen
    requires forall i :: 0 <= i < |rest| ==> rest[i].text !in seen
    requires forall i, j :: 0 <= i < j < |rest| ==> rest[i].text != rest[j].text
    ensures forall i, j :: 0 <= i < j < |[x] + rest| ==> ([x] + rest)[i].text != ([x] + rest)[j].text
  {
    var d := [x] + rest;
    forall i, j | 0 <= i < j < |d| ensures d[i].text != d[j].text {
      assert d[j] == rest[j - 1];
      if i > 0 { assert d[i] == rest[i - 1]; }
    }
  }

  /** The texts of a run of calls. */
  function Texts(d: seq<CaptionEvent>): set<string>
  {
    set i | 0 <= i < |d| :: d[i].text
  }

  /** The seen set grows by exactly the texts sent. */
  lemma {:induction false} SeenGrowsBySent(st: ObserverState, nodes: seq<CaptionNode>)
    ensures FinalObserver(st, nodes).seenCaptions == st.seenCaptions + Texts(Deliveries(st, nodes))
    decreases |nodes|
  {
    if nodes != [] {
      var r := HandleStep(st, nodes[0]);
      var rest := Deliveries(r.next, nodes[1..]);
      SeenGrowsBySent(r.next, nodes[1..]);
      var d := Deliveries(st, nodes);
      if r.delivered.Some? {
        assert d == [r.delivered.value] + rest;
        assert Texts(d) == {r.delivered.value.text} + Texts(rest) by {
          forall x | x in Texts(d) ensures x in {r.delivered.value.text} + Texts(rest) {
            var i :| 0 <= i < |d| && d[i].text == x;
            if i > 0 { assert d[i] == rest[i - 1]; }
          }
          forall x | x in Texts(rest) ensures x in Texts(d) {
            var i :| 0 <= i < |rest| && rest[i].text == x;
            assert d[i + 1] == rest[i];
          }
          assert d[0].text in Texts(d);
        }
      } else {
        assert d == rest;
      }
    }
  }

  // ---------------------------------------------------------------------
  // The capture session (`scrapeCaptions`)
  // ---------------------------------------------------------------------

  /** The legacy capture rule: a non-blank caption appends a one-position
      segment at the end; a blank one appends nothing. */
  function Append(segments: seq<Segment>, ev: CaptionEvent): (r: seq<Segment>)
    ensures Trim(ev.text) == [] ==> r == segments
    ensures Trim(ev.text) != [] ==>
      && |r| == |segments| + 1 && r[..|segments|] == segments
      && r[|segments|] == Segment(ev.speaker, Trim(ev.text), |segments|, |segments| + 1, None)
  {
    var caption := Trim(ev.text);
    if caption == [] then segments
    else segments + [Segment(ev.speaker, caption, |segments|, |segments| + 1, None)]
  }

  /** The segments after `events`, delivered in order to an empty session. */
  function Captured(events: seq<CaptionEvent>): seq<Segment>
    decreases |events|
  {
    if events == [] then [] else Append(Captured(events[..|events| - 1]), events[|events| - 1])
  }

  /** Segment `i` spans exactly position `i`, as the legacy hook numbers them. */
  ghost predicate Numbered(segments: seq<Segment>)
  {
    forall i :: 0 <= i < |segments| ==>
      && segments[i].start == i && segments[i].end == i + 1
      && segments[i].meetingId.None? && segments[i].text != []
  }

  /** Appending never rewrites anything: the legacy bot keeps every caption
      as its own segment, numbered by arrival. */
  lemma {:induction false} CapturedIsNumbered(events: seq<CaptionEvent>)
    ensures Numbered(Captured(events))
    ensures |Captured(events)| <= |events|
    decreases |events|
  {
    if events != [] {
      var prefix := events[..|events| - 1];
      CapturedIsNumbered(prefix);
      AppendKeepsNumbered(Captured(prefix), events[|events| - 1]);
    }
  }

  lemma AppendKeepsNumbered(segments: seq<Segment>, ev: CaptionEvent)
    requires Numbered(segments)
    ensures Numbered(Append(segments, ev))
    ensures Append(segments, ev)[..|segments|] == segments
    ensures |Append(segments, ev)| == |segments| + (if Trim(ev.text) == [] then 0 else 1)
  {
  }

  /** The captions that are non-blank once trimmed, in delivery order. */
  function Spoken(events: seq<CaptionEvent>): seq<CaptionEvent>
    decreases |events|
  {
    if events == [] then []
    else
      var last := events[|events| - 1];
      Spoken(events[..|events| - 1]) + (if Trim(last.text) != [] then [last] else [])
  }

  /** The capture keeps one segment per non-blank caption: the k-th segment
      carries the k-th non-blank caption's speaker and trimmed text. */
  lemma {:induction false} CapturedFollowsSpoken(events: seq<CaptionEvent>)
    ensures |Captured(events)| == |Spoken(events)|
    ensures forall k :: 0 <= k < |Spoken(events)| ==>
      Captured(events)[k].speaker == Spoken(events)[k].speaker
      && Captured(events)[k].text == Trim(Spoken(events)[k].text)
    decreases |events|
  {
    if events != [] {
      var prefix := events[..|events| - 1];
      var last := events[|events| - 1];
      CapturedFollowsSpoken(prefix);
      var before := Captured(prefix);
      if Trim(last.text) != [] {
        assert Spoken(events) == Spoken(prefix) + [last];
        forall k | 0 <= k < |Spoken(events)|
          ensures Captured(events)[k].speaker == Spoken(events)[k].speaker
          ensures Captured(events)[k].text == Trim(Spoken(events)[k].text)
        {
          if k < |before| {
            assert Captured(events)[k] == Captured(events)[..|before|][k] == before[k];
            assert Spoken(events)[k] == Spoken(prefix)[k];
          }
        }
      } else {
        assert Spoken(events) == Spoken(prefix);
      }
    }
  }

  /** The stop condition of the polling timer; both comparisons are strict. */
  predicate ShouldStop(now: int, lastSeen: int, startTime: int)
  {
    now - lastSeen > MAX_IDLE_TIME || now - startTime > MAX_TOTAL_TIME
  }

  /** Exactly 30 s of silence does not stop the bot; one millisecond more does. */
  lemma IdleBoundary(lastSeen: int, startTime: int)
    ensures !ShouldStop(lastSeen + MAX_IDLE_TIME, lastSeen, startTime) || lastSeen + MAX_IDLE_TIME - startTime > MAX_TOTAL_TIME
    ensures ShouldStop(lastSeen + MAX_IDLE_TIME + 1, lastSeen, startTime)
  {
  }

  /** Once the stop condition holds, it holds at every later time. */
  lemma ShouldStopMonotone(now: int, later: int, lastSeen: int, startTime: int)
    requires ShouldStop(now, lastSeen, startTime) && now <= later
    ensures ShouldStop(later, lastSeen, startTime)
  {
  }

  /** A caption resets the idle clock: right after one, only the total limit can stop the bot. */
  lemma FreshCaptionOnlyTotalStops(now: int, startTime: int)
    ensures ShouldStop(now, now, startTime) <==> now - startTime > MAX_TOTAL_TIME
  {
  }

  /** What the legacy bot does that the outside world sees. */
  datatype LegacyEffect =
    | IntervalCleared
    | TranscriptSaveCalled(t: Transcript)
    | BotDonePosted(body: BotDone)

  class LegacyCaptureSession {
    const db: Database
    const meetingId: string
    const createdAt: Timestamp
    const startTime: int
    var index: nat
    var segments: seq<Segment>
    var captionsLastSeenAt: int
    /** Whether the `isWorking` interval is still scheduled. */
    var running: bool
    ghost var effects: seq<LegacyEffect>

    ghost predicate Valid()
      reads this
    {
      index == |segments| && Numbered(segments)
    }

    /** The session set up by `scrapeCaptions`; `now` is `Date.now()` when the
        closure is created and `startTime` when the timer is started. */
    constructor (db: Database, meetingId: string, createdAt: Timestamp, now: int, startTime: int)
      ensures Valid() && segments == [] && captionsLastSeenAt == now && running
      ensures this.db == db && this.meetingId == meetingId && this.createdAt == createdAt
      ensures this.startTime == startTime && effects == []
    {
      this.db := db;
      this.meetingId := meetingId;
      this.createdAt := createdAt;
      this.startTime := startTime;
      index := 0;
      segments := [];
      captionsLastSeenAt := now;
      running := true;
      effects := [];
    }

    /** The exposed `onCaption(speaker, text)` at time `now`. */
    method OnCaption(speaker: string, text: string, now: int)
      requires Valid()
      modifies this`index, this`segments, this`captionsLastSeenAt
      ensures Valid()
      ensures segments == Append(old(segments), CaptionEvent(speaker, text))
      ensures captionsLastSeenAt == now
    {
      captionsLastSeenAt := now;
      var trimmedCaption := Trim(text);
      if trimmedCaption != [] {
        segments := segments + [Segment(speaker, trimmedCaption, index, index + 1, None)];
        index := index + 1;
      }
    }

    /**
      One run of the `isWorking` interval at time `now`. Once the stop
      condition holds it clears the interval, saves the transcript, and
      posts `{ jobId, meetingId }`; the result is `Some(meetingId)` when
      the promise resolves. A rejected save or post leaves it pending
      (`None`), and so does a tick that does not stop.
     */
    method Tick(now: int, jobId: Option<string>, saveFailure: LegacyStorage.Failure, postFails: bool)
      returns (resolved: Option<string>)
      requires Valid()
      modifies this`running, this`effects, db
      ensures Valid()
      ensures var stop := old(running) && ShouldStop(now, captionsLastSeenAt, startTime);
        var t := Transcript(meetingId, createdAt, segments);
        var saved := saveFailure == LegacyStorage.NoFailure
                     || (saveFailure == LegacyStorage.CreateManyFails && |segments| == 0);
        && (resolved.Some? <==> stop && saved && !postFails)
        && (resolved.Some? ==> resolved.value == meetingId)
        && running == (old(running) && !stop)
        && (stop ==>
              && db.transcripts == LegacyStorage.SavedTranscripts(old(db.transcripts), t, saveFailure)
              && db.segments == LegacyStorage.SavedSegments(old(db.segments), t, saveFailure)
              && effects == old(effects) + [IntervalCleared, TranscriptSaveCalled(t)] + (if saved then [BotDonePosted(BotDone(jobId, meetingId))] else []))
        && (!stop ==> effects == old(effects) && unchanged(db))
    {
      resolved := None;
      if !running {
        return;
      }
      var curr := now;
      var idleTime := curr - captionsLastSeenAt;
      var totalTime := curr - startTime;
      if idleTime > MAX_IDLE_TIME || totalTime > MAX_TOTAL_TIME {
        running := false;
        var t := Transcript(meetingId, createdAt, segments);
        effects := effects + [IntervalCleared, TranscriptSaveCalled(t)];
        var ok := LegacyStorage.SaveTranscript(db, t, saveFailure);
        if !ok {
          return;
        }
        effects := effects + [BotDonePosted(BotDone(jobId, meetingId))];
        if postFails {
          return;
        }
        resolved := Some(meetingId);
      }
    }
  }
}
