/**
  The caption session of the TypeScript bot (`scrapeCaptions` in
  `src/playwright/runBot.ts`): the `onCaption` callback that reconciles
  captions into one active segment per speaker, the periodic flush, and the
  sequential tail that runs once the termination race is decided.
 */
module Session {
  import opened Wrappers
  import opened Text
  import opened Models
  import opened Db
  import Storage

  /** Phrases that make the bot leave (already lower-case, so the source's
      `.map(toLowerCase)` leaves them as they are). */
  const EXIT_PHRASES: seq<string> := [
    "notetaker, please leave",
    "note taker, please leave",
    "no taker please leave",
    "notetaker please leave"
  ]

  /** The alternatives of the regular expression in `isNotRealCaption`. */
  const DENY_PHRASES: seq<string> := [
    "you left the meeting",
    "return to home screen",
    "leave call",
    "feedback",
    "audio and video",
    "learn more"
  ]

  /** The `${err}` text of the hard-timeout rejection. */
  const HARD_TIMEOUT_ERROR: string := "Error: Hard timeout (100 min) exceeded"

  /** `phrases.some(p => s.includes(p))`. */
  predicate MentionsAny(s: string, phrases: seq<string>)
    decreases |phrases|
  {
    phrases != [] && (Includes(s, phrases[0]) || MentionsAny(s, phrases[1..]))
  }

  /** `EXIT_PHRASES.some(p => caption.toLowerCase().includes(p))`. */
  predicate IsExitPhrase(caption: string)
  {
    MentionsAny(Lower(caption), EXIT_PHRASES)
  }

  /** `isNotRealCaption`: the lower-cased text contains a deny phrase. */
  predicate IsNotRealCaption(text: string)
  {
    MentionsAny(Lower(text), DENY_PHRASES)
  }

  /** The growth rule: the new caption extends the old one, or is more than
      five UTF-16 code units longer. */
  predicate IsGrowth(previous: string, caption: string)
  {
    StartsWith(caption, previous) || Utf16Length(caption) > Utf16Length(previous) + 5
  }

  /** The closure state `onCaption` updates. `order` is the insertion order
      of `activeSegments`, which `Array.from(activeSegments.values())` follows. */
  datatype State = State(index: nat, exitRequested: bool, order: seq<string>, active: map<string, Segment>)

  const INITIAL: State := State(0, false, [], map[])

  /** `Array.from(activeSegments.values())`. */
  function Values(order: seq<string>, active: map<string, Segment>): seq<Segment>
    decreases |order|
  {
    if order == [] then []
    else (if order[0] in active then [active[order[0]]] else []) + Values(order[1..], active)
  }

  /** The segment rule for one trimmed, non-empty caption at position `index`. */
  function Reconcile(active: map<string, Segment>, meetingId: string, speaker: string, caption: string, index: nat)
    : map<string, Segment>
  {
    if speaker !in active then
      active[speaker := Segment(speaker, caption, index, index + 1, Some(meetingId))]
    else if IsGrowth(active[speaker].text, caption) then
      active[speaker := active[speaker].(text := caption, end := index + 1)]
    else active
  }

  /** A trimmed, non-empty caption taken into the session at position `index`. */
  function Accept(st: State, meetingId: string, speaker: string, caption: string): State
  {
    State(st.index + 1,
          st.exitRequested || IsExitPhrase(caption),
          if speaker in st.active then st.order else st.order + [speaker],
          Reconcile(st.active, meetingId, speaker, caption, st.index))
  }

  /** One `onCaption(speaker, text)` call, on the closure state. */
  function CaptionStep(st: State, meetingId: string, ev: CaptionEvent): (r: State)
    ensures r.index == if Trim(ev.text) == [] then st.index else st.index + 1
    ensures st.exitRequested ==> r.exitRequested
    ensures Trim(ev.text) != [] && IsExitPhrase(Trim(ev.text)) ==> r.exitRequested
    ensures r.exitRequested ==> st.exitRequested || IsExitPhrase(Trim(ev.text))
  {
    var caption := Trim(ev.text);
    if caption == [] then st else Accept(st, meetingId, ev.speaker, caption)
  }

  /** A caption touches only its own speaker's segment. */
  lemma CaptionStepLeavesOthers(st: State, meetingId: string, ev: CaptionEvent)
    ensures var r := CaptionStep(st, meetingId, ev);
      && (forall s :: s != ev.speaker ==> (s in r.active <==> s in st.active))
      && (forall s :: s != ev.speaker && s in st.active ==> r.active[s] == st.active[s])
  {
  }

  /** A caption that is blank after trimming changes nothing at all. */
  lemma BlankCaptionIgnored(st: State, meetingId: string, ev: CaptionEvent)
    requires AllSpaces(ev.text)
    ensures CaptionStep(st, meetingId, ev) == st
  {
    TrimShape(ev.text);
  }

  /** A speaker without an active segment gets a fresh one spanning `[index, index + 1)`. */
  lemma FirstCaptionOpensSegment(st: State, meetingId: string, ev: CaptionEvent)
    requires Trim(ev.text) != [] && ev.speaker !in st.active
    ensures var r := CaptionStep(st, meetingId, ev);
      ev.speaker in r.active
      && r.active[ev.speaker] == Segment(ev.speaker, Trim(ev.text), st.index, st.index + 1, Some(meetingId))
      && r.order == st.order + [ev.speaker]
  {
  }

  /** An existing segment takes the new text and end exactly when the caption
      is growth, and otherwise stays as it was; its start and speaker never change. */
  lemma GrowthRule(st: State, meetingId: string, ev: CaptionEvent)
    requires Trim(ev.text) != [] && ev.speaker in st.active
    ensures var prev := st.active[ev.speaker];
      var r := CaptionStep(st, meetingId, ev);
      && ev.speaker in r.active
      && r.active[ev.speaker].start == prev.start
      && r.active[ev.speaker].speaker == prev.speaker
      && r.order == st.order
      && (IsGrowth(prev.text, Trim(ev.text)) ==>
            r.active[ev.speaker].text == Trim(ev.text) && r.active[ev.speaker].end == st.index + 1)
      && (!IsGrowth(prev.text, Trim(ev.text)) ==> r.active[ev.speaker] == prev)
  {
  }

  /** Repeating the current text counts as growth. */
  lemma SameTextIsGrowth(text: string)
    ensures IsGrowth(text, text)
  {
    assert text[..|text|] == text;
  }

  /** A well-formed active segment of `speaker` in a session at position `index`. */
  predicate SegmentOf(seg: Segment, speaker: string, meetingId: string, index: nat)
  {
    seg.speaker == speaker && 0 <= seg.start < seg.end <= index && seg.meetingId == Some(meetingId)
  }

  /** The session invariant: one segment per speaker, listed once in insertion
      order, each with `start < end <= index`, and no two with the same start. */
  ghost predicate Inv(st: State, meetingId: string)
  {
    && (forall i :: 0 <= i < |st.order| ==> st.order[i] in st.active)
    && (forall s :: s in st.active ==> s in st.order)
    && (forall i, j :: 0 <= i < j < |st.order| ==> st.order[i] != st.order[j])
    && (forall s :: s in st.active ==> SegmentOf(st.active[s], s, meetingId, st.index))
    && (forall s, t :: s in st.active && t in st.active && s != t ==> st.active[s].start != st.active[t].start)
  }

  lemma InitialInv(meetingId: string)
    ensures Inv(INITIAL, meetingId)
  {
  }

  lemma CaptionStepPreservesInv(st: State, meetingId: string, ev: CaptionEvent)
    requires Inv(st, meetingId)
    ensures Inv(CaptionStep(st, meetingId, ev), meetingId)
  {
    if Trim(ev.text) != [] {
      if ev.speaker !in st.active {
        NewSpeakerStepKeepsInv(st, meetingId, ev);
      } else if IsGrowth(st.active[ev.speaker].text, Trim(ev.text)) {
        GrowthStepKeepsInv(st, meetingId, ev);
      } else {
        UpdateKeepsInv(st, meetingId, ev.speaker, st.active[ev.speaker], st.exitRequested || IsExitPhrase(Trim(ev.text)));
        assert st.active[ev.speaker := st.active[ev.speaker]] == st.active;
      }
    }
  }

  lemma NewSpeakerStepKeepsInv(st: State, meetingId: string, ev: CaptionEvent)
    requires Inv(st, meetingId) && Trim(ev.text) != [] && ev.speaker !in st.active
    ensures Inv(CaptionStep(st, meetingId, ev), meetingId)
  {
    var caption := Trim(ev.text);
    var exit := st.exitRequested || IsExitPhrase(caption);
    var seg := Segment(ev.speaker, caption, st.index, st.index + 1, Some(meetingId));
    assert CaptionStep(st, meetingId, ev) == State(st.index + 1, exit, st.order + [ev.speaker], st.active[ev.speaker := seg]);
    NewSpeakerKeepsInv(st, meetingId, ev.speaker, caption, exit);
  }

  lemma GrowthStepKeepsInv(st: State, meetingId: string, ev: CaptionEvent)
    requires Inv(st, meetingId) && Trim(ev.text) != [] && ev.speaker in st.active
    requires IsGrowth(st.active[ev.speaker].text, Trim(ev.text))
    ensures Inv(CaptionStep(st, meetingId, ev), meetingId)
  {
    var caption := Trim(ev.text);
    var exit := st.exitRequested || IsExitPhrase(caption);
    var next := st.active[ev.speaker].(text := caption, end := st.index + 1);
    assert CaptionStep(st, meetingId, ev) == State(st.index + 1, exit, st.order, st.active[ev.speaker := next]);
    UpdateKeepsInv(st, meetingId, ev.speaker, next, exit);
  }

  /** Opening a segment at position `index` for a new speaker keeps the invariant. */
  lemma NewSpeakerKeepsInv(st: State, meetingId: string, speaker: string, caption: string, exit: bool)
    requires Inv(st, meetingId) && speaker !in st.active
    ensures Inv(State(st.index + 1, exit, st.order + [speaker],
                      st.active[speaker := Segment(speaker, caption, st.index, st.index + 1, Some(meetingId))]), meetingId)
  {
    var order := st.order + [speaker];
    var active := st.active[speaker := Segment(speaker, caption, st.index, st.index + 1, Some(meetingId))];
    forall i | 0 <= i < |order| ensures order[i] in active {
      if i < |st.order| { assert order[i] == st.order[i]; }
    }
    forall s | s in active ensures s in order {
      if s != speaker { assert s in st.order; }
    }
    forall i, j | 0 <= i < j < |order| ensures order[i] != order[j] {
      if j < |st.order| { assert order[i] == st.order[i] && order[j] == st.order[j]; }
      else { assert order[i] == st.order[i] && order[i] in st.active; }
    }
  }

  /** Replacing a speaker's segment by one with the same start and speaker,
      ending at most at `index + 1`, keeps the invariant. */
  lemma UpdateKeepsInv(st: State, meetingId: string, speaker: string, next: Segment, exit: bool)
    requires Inv(st, meetingId) && speaker in st.active
    requires next.start == st.active[speaker].start && next.speaker == speaker && next.meetingId == Some(meetingId)
    requires next.start < next.end <= st.index + 1
    ensures Inv(State(st.index + 1, exit, st.order, st.active[speaker := next]), meetingId)
  {
  }

  /** The session after `events`, delivered in order. */
  function Run(st: State, meetingId: string, events: seq<CaptionEvent>): State
    decreases |events|
  {
    if events == [] then st else Run(CaptionStep(st, meetingId, events[0]), meetingId, events[1..])
  }

  function NonBlankCount(events: seq<CaptionEvent>): nat
  {
    if events == [] then 0 else (if Trim(events[0].text) == [] then 0 else 1) + NonBlankCount(events[1..])
  }

  /** Over any sequence of events: the invariant holds, `index` counts the
      non-blank captions, and once requested, exit stays requested. */
  lemma {:induction false} RunInvariant(st: State, meetingId: string, events: seq<CaptionEvent>)
    requires Inv(st, meetingId)
    ensures Inv(Run(st, meetingId, events), meetingId)
    ensures Run(st, meetingId, events).index == st.index + NonBlankCount(events)
    ensures st.exitRequested ==> Run(st, meetingId, events).exitRequested
    decreases |events|
  {
    if events != [] {
      CaptionStepPreservesInv(st, meetingId, events[0]);
      RunInvariant(CaptionStep(st, meetingId, events[0]), meetingId, events[1..]);
    }
  }

  /** The example conversation: Alice's caption grows in place, Bob opens his own segment. */
  lemma Conversation(meetingId: string)
    ensures var r := Run(INITIAL, meetingId,
                         [CaptionEvent("Alice", "Hi"), CaptionEvent("Alice", "Hi there"), CaptionEvent("Bob", "ok")]);
      && r.index == 3
      && r.order == ["Alice", "Bob"]
      && r.active == map["Alice" := Segment("Alice", "Hi there", 0, 2, Some(meetingId)),
                         "Bob" := Segment("Bob", "ok", 2, 3, Some(meetingId))]
      && !r.exitRequested
  {
    var e1, e2, e3 := CaptionEvent("Alice", "Hi"), CaptionEvent("Alice", "Hi there"), CaptionEvent("Bob", "ok");
    var s1 := State(1, false, ["Alice"], map["Alice" := Segment("Alice", "Hi", 0, 1, Some(meetingId))]);
    var s2 := State(2, false, ["Alice"], map["Alice" := Segment("Alice", "Hi there", 0, 2, Some(meetingId))]);
    var s3 := State(3, false, ["Alice", "Bob"], map["Alice" := Segment("Alice", "Hi there", 0, 2, Some(meetingId)),
                                                   "Bob" := Segment("Bob", "ok", 2, 3, Some(meetingId))]);
    ConversationStep1(meetingId);
    ConversationTail(meetingId);
    assert [e1, e2, e3][1..] == [e2, e3];
  }

  /** After Alice's first caption, "Hi there" and then Bob's "ok" lead to the final state. */
  lemma ConversationTail(meetingId: string)
    ensures Run(State(1, false, ["Alice"], map["Alice" := Segment("Alice", "Hi", 0, 1, Some(meetingId))]),
                meetingId, [CaptionEvent("Alice", "Hi there"), CaptionEvent("Bob", "ok")])
         == State(3, false, ["Alice", "Bob"], map["Alice" := Segment("Alice", "Hi there", 0, 2, Some(meetingId)),
                                                  "Bob" := Segment("Bob", "ok", 2, 3, Some(meetingId))])
  {
    var e2, e3 := CaptionEvent("Alice", "Hi there"), CaptionEvent("Bob", "ok");
    var s2 := State(2, false, ["Alice"], map["Alice" := Segment("Alice", "Hi there", 0, 2, Some(meetingId))]);
    ConversationStep2(meetingId);
    ConversationStep3(meetingId);
    assert [e2, e3][1..] == [e3];
    assert Run(s2, meetingId, [e3]) == Run(CaptionStep(s2, meetingId, e3), meetingId, []);
  }

  /** "Hi" from Alice opens her segment at `[0, 1)`. */
  lemma ConversationStep1(meetingId: string)
    ensures CaptionStep(INITIAL, meetingId, CaptionEvent("Alice", "Hi"))
         == State(1, false, ["Alice"], map["Alice" := Segment("Alice", "Hi", 0, 1, Some(meetingId))])
  {
    TrimOfSolid("Hi");
    ShortNeverExits("Hi");
  }

  /** "Hi there" extends "Hi", so Alice's segment grows to `[0, 2)`. */
  lemma ConversationStep2(meetingId: string)
    ensures CaptionStep(State(1, false, ["Alice"], map["Alice" := Segment("Alice", "Hi", 0, 1, Some(meetingId))]),
                        meetingId, CaptionEvent("Alice", "Hi there"))
         == State(2, false, ["Alice"], map["Alice" := Segment("Alice", "Hi there", 0, 2, Some(meetingId))])
  {
    TrimOfSolid("Hi there");
    ShortNeverExits("Hi there");
    AliceGrows(meetingId);
  }

  /** The growth branch of the rule, for Alice's second caption. */
  lemma AliceGrows(meetingId: string)
    ensures Reconcile(map["Alice" := Segment("Alice", "Hi", 0, 1, Some(meetingId))], meetingId, "Alice", "Hi there", 1)
         == map["Alice" := Segment("Alice", "Hi there", 0, 2, Some(meetingId))]
  {
    assert IsGrowth("Hi", "Hi there") by { assert "Hi there"[..2] == "Hi"; }
  }

  /** "ok" from Bob opens his segment at `[2, 3)`, after Alice's. */
  lemma ConversationStep3(meetingId: string)
    ensures CaptionStep(State(2, false, ["Alice"], map["Alice" := Segment("Alice", "Hi there", 0, 2, Some(meetingId))]),
                        meetingId, CaptionEvent("Bob", "ok"))
         == State(3, false, ["Alice", "Bob"], map["Alice" := Segment("Alice", "Hi there", 0, 2, Some(meetingId)),
                                                  "Bob" := Segment("Bob", "ok", 2, 3, Some(meetingId))])
  {
    TrimOfSolid("ok");
    ShortNeverExits("ok");
  }

  /** Every exit phrase is at least 21 characters long. */
  lemma ShortNeverExits(s: string)
    requires |s| < 21
    ensures !IsExitPhrase(s)
  {
    ShortNeverMentions(Lower(s), EXIT_PHRASES);
  }

  /** A string shorter than every phrase mentions none of them. */
  lemma ShortNeverMentions(s: string, phrases: seq<string>)
    requires forall i :: 0 <= i < |phrases| ==> |s| < |phrases[i]|
    ensures !MentionsAny(s, phrases)
    decreases |phrases|
  {
    if phrases != [] {
      IncludesIff(s, phrases[0]);
      ShortNeverMentions(s, phrases[1..]);
    }
  }

  /** `MentionsAny` holds exactly when one of the phrases occurs somewhere in `s`. */
  lemma {:induction false} MentionsAnyIff(s: string, phrases: seq<string>)
    ensures MentionsAny(s, phrases) <==> exists p, i :: p in phrases && OccursAt(s, p, i)
    decreases |phrases|
  {
    if phrases != [] {
      IncludesIff(s, phrases[0]);
      MentionsAnyIff(s, phrases[1..]);
      assert forall p :: p in phrases <==> p == phrases[0] || p in phrases[1..];
    }
  }

  /** A caption asks the bot to leave exactly when its lower-cased text
      contains one of the exit phrases. */
  lemma IsExitPhraseIff(s: string)
    ensures IsExitPhrase(s) <==> exists p, i :: p in EXIT_PHRASES && OccursAt(Lower(s), p, i)
  {
    MentionsAnyIff(Lower(s), EXIT_PHRASES);
  }

  /** The match ignores case: a capitalised request still counts. */
  lemma ExitPhraseExample()
    ensures IsExitPhrase("Notetaker, Please Leave")
  {
    LowerCapitalisedRequest();
    assert StartsWith("notetaker, please leave", EXIT_PHRASES[0]);
  }

  lemma LowerCapitalisedRequest()
    ensures Lower("Notetaker, Please Leave") == "notetaker, please leave"
  {
    LowerCases("Notetaker, Please Leave");
  }

  /** Under the invariant, the flushed batch lists each active segment once. */
  lemma {:induction false} ValuesListsActive(order: seq<string>, active: map<string, Segment>)
    requires forall i :: 0 <= i < |order| ==> order[i] in active
    ensures |Values(order, active)| == |order|
    ensures forall i :: 0 <= i < |order| ==> Values(order, active)[i] == active[order[i]]
    decreases |order|
  {
    if order != [] {
      ValuesListsActive(order[1..], active);
    }
  }

  /** No two segments of the batch share a start. */
  predicate UniqueStarts(batch: seq<Segment>)
  {
    forall a, b :: a in batch && b in batch && a.start == b.start ==> a == b
  }

  /** What makes the storage key `(meetingId, start)` collision-free: the
      flushed batch has pairwise distinct starts and holds every active segment. */
  lemma ValuesUniqueStarts(st: State, meetingId: string)
    requires Inv(st, meetingId)
    ensures UniqueStarts(Values(st.order, st.active))
    ensures forall s :: s in st.active ==> st.active[s] in Values(st.order, st.active)
  {
    var vs := Values(st.order, st.active);
    ValuesListsActive(st.order, st.active);
    forall s | s in st.active ensures st.active[s] in vs {
      var i :| 0 <= i < |st.order| && st.order[i] == s;
      assert vs[i] == st.active[s];
    }
    forall a, b | a in vs && b in vs && a.start == b.start ensures a == b {
      var i :| 0 <= i < |vs| && vs[i] == a;
      var j :| 0 <= j < |vs| && vs[j] == b;
      assert a == st.active[st.order[i]] && b == st.active[st.order[j]];
    }
  }

  /** In a batch with unique starts, the upsert of each segment survives. */
  lemma UniqueStartsSurvive(rows: SegmentTable, meetingId: string, batch: seq<Segment>, seg: Segment)
    requires UniqueStarts(batch) && seg in batch
    ensures var r := Storage.UpsertAll(rows, meetingId, batch);
      SegmentKey(meetingId, seg.start) in r && r[SegmentKey(meetingId, seg.start)] == Storage.RowOf(meetingId, seg)
  {
    assert Storage.LastWithStart(batch, seg.start).Some?;
    Storage.UpsertAllLastWriteWins(rows, meetingId, batch, SegmentKey(meetingId, seg.start));
  }

  /** A flush of the active map stores every active segment under its own key. */
  lemma FlushStoresEveryActiveSegment(st: State, meetingId: string, rows: SegmentTable, s: string)
    requires Inv(st, meetingId) && s in st.active
    ensures var r := Storage.UpsertAll(rows, meetingId, Values(st.order, st.active));
      var k := SegmentKey(meetingId, st.active[s].start);
      k in r && r[k] == Storage.RowOf(meetingId, st.active[s])
  {
    ValuesUniqueStarts(st, meetingId);
    UniqueStartsSurvive(rows, meetingId, Values(st.order, st.active), st.active[s]);
  }

  /** The finalization rule: keep a segment whose text is a real caption, or
      whose `end` lies more than two positions before `index`. */
  predicate KeepAtEnd(seg: Segment, index: nat)
  {
    !IsNotRealCaption(seg.text) || seg.end < index - 2
  }

  /** The `.filter(...)` over the active segments at the end of the session. */
  function FinalSegments(batch: seq<Segment>, index: nat): (r: seq<Segment>)
    ensures forall seg :: seg in r <==> seg in batch && KeepAtEnd(seg, index)
    ensures |r| <= |batch|
    decreases |batch|
  {
    if batch == [] then []
    else (if KeepAtEnd(batch[0], index) then [batch[0]] else []) + FinalSegments(batch[1..], index)
  }

  /** The filter works segment by segment, so it keeps the batch order. */
  lemma {:induction false} FinalSegmentsAppend(a: seq<Segment>, b: seq<Segment>, index: nat)
    ensures FinalSegments(a + b, index) == FinalSegments(a, index) + FinalSegments(b, index)
    decreases |a|
  {
    if a == [] {
      assert a + b == b;
    } else {
      assert (a + b)[0] == a[0] && (a + b)[1..] == a[1..] + b;
      FinalSegmentsAppend(a[1..], b, index);
    }
  }

  /** The final flush stores every kept active segment under its own key. */
  lemma FinalFlushStoresKept(st: State, meetingId: string, rows: SegmentTable, s: string)
    requires Inv(st, meetingId) && s in st.active && KeepAtEnd(st.active[s], st.index)
    ensures var r := Storage.UpsertAll(rows, meetingId, FinalSegments(Values(st.order, st.active), st.index));
      var k := SegmentKey(meetingId, st.active[s].start);
      k in r && r[k] == Storage.RowOf(meetingId, st.active[s])
  {
    ValuesUniqueStarts(st, meetingId);
    var fin := FinalSegments(Values(st.order, st.active), st.index);
    assert UniqueStarts(fin);
    UniqueStartsSurvive(rows, meetingId, fin, st.active[s]);
  }

  /** Which branch of the termination race settles first. */
  datatype RaceWinner = ExitRequestedWins | LeaveBannerWins | HardTimeoutWins

  /** What the session does that the outside world sees, in order. */
  datatype Effect =
    | SaveCalled(batch: seq<Segment>, force: bool)
    | FlushTimerCleared
    | BotDonePosted(body: BotDone)

  /** The error `runBot` rethrows. */
  function RunBotError(err: string): string
  {
    "Run Bot error: " + err
  }

  /** The completion notice, sent only when `JOB_ID` is set and non-empty. */
  function NotifyEffects(jobId: Option<string>, meetingId: string): seq<Effect>
  {
    if jobId.Some? && jobId.value != [] then [BotDonePosted(BotDone(jobId, meetingId))] else []
  }

  /** The flush at the end of `leaveCall`, run only when the exit branch wins. */
  function LeaveCallEffects(winner: RaceWinner): seq<Effect>
  {
    if winner == ExitRequestedWins then [SaveCalled([], false)] else []
  }

  /**
    The body of `onCaption` on the closure state: trim, test for an exit
    phrase, then open, grow or keep the speaker's segment. `isExit` tells
    whether the caption asks the bot to leave.
   */
  method TakeCaption(st: State, meetingId: string, speaker: string, text: string) returns (next: State, isExit: bool)
    ensures next == CaptionStep(st, meetingId, CaptionEvent(speaker, text))
    ensures isExit <==> Trim(text) != [] && IsExitPhrase(Trim(text))
  {
    var caption := Trim(text);
    if caption == [] {
      return st, false;
    }
    var normalized := Lower(caption);
    isExit := MentionsAny(normalized, EXIT_PHRASES);
    var segs, speakers := st.active, st.order;
    if speaker !in segs {
      segs := segs[speaker := Segment(speaker, caption, st.index, st.index + 1, Some(meetingId))];
      speakers := speakers + [speaker];
      assert segs == Reconcile(st.active, meetingId, speaker, caption, st.index);
    } else {
      var existing := segs[speaker];
      if StartsWith(caption, existing.text) || Utf16Length(caption) > Utf16Length(existing.text) + 5 {
        segs := segs[speaker := existing.(text := caption, end := st.index + 1)];
        assert segs == Reconcile(st.active, meetingId, speaker, caption, st.index);
      } else {
        assert segs == Reconcile(st.active, meetingId, speaker, caption, st.index);
      }
    }
    next := State(st.index + 1, st.exitRequested || isExit, speakers, segs);
    assert next == Accept(st, meetingId, speaker, caption);
  }

  class CaptionSession {
    const db: Database
    const meetingId: string
    const createdAt: Timestamp
    var index: nat
    var flushedCount: nat
    var exitRequested: bool
    /** Declared as the list of finalized segments; nothing ever appends to it. */
    var segments: seq<Segment>
    var order: seq<string>
    var active: map<string, Segment>
    var flushTimerRunning: bool
    ghost var effects: seq<Effect>

    function Current(): State
      reads this
    {
      State(index, exitRequested, order, active)
    }

    ghost predicate Valid()
      reads this
    {
      Inv(Current(), meetingId) && segments == [] && flushedCount == 0
    }

    constructor (db: Database, meetingId: string, createdAt: Timestamp)
      ensures Valid() && Current() == INITIAL
      ensures this.db == db && this.meetingId == meetingId && this.createdAt == createdAt
      ensures !flushTimerRunning && effects == []
    {
      this.db := db;
      this.meetingId := meetingId;
      this.createdAt := createdAt;
      index, flushedCount, exitRequested := 0, 0, false;
      segments, order, active := [], [], map[];
      flushTimerRunning := false;
      effects := [];
    }

    /** `saveTranscriptBatch(meetingId, createdAt, batch, force)`, recorded in the trace. */
    method Save(batch: seq<Segment>, force: bool, failAt: Option<nat>)
      modifies this`effects, db
      ensures effects == old(effects) + [SaveCalled(batch, force)]
      ensures db.transcripts == Storage.SavedTranscripts(old(db.transcripts), meetingId, createdAt, batch, force, failAt)
      ensures db.segments == Storage.SavedSegments(old(db.segments), meetingId, batch, force, failAt)
    {
      Storage.SaveTranscriptBatch(db, meetingId, createdAt, batch, force, failAt);
      effects := effects + [SaveCalled(batch, force)];
    }

    /** The exposed `onCaption(speaker, text)`. `failAt` is the failing write,
        if any, of the forced save an exit phrase triggers. */
    method OnCaption(speaker: string, text: string, failAt: Option<nat>)
      requires Valid()
      modifies this, db
      ensures Valid()
      ensures Current() == CaptionStep(old(Current()), meetingId, CaptionEvent(speaker, text))
      ensures flushTimerRunning == old(flushTimerRunning)
      ensures var caption := Trim(text);
        if caption != [] && IsExitPhrase(caption) then
          && effects == old(effects) + [SaveCalled(Values(order, active), true)]
          && db.transcripts == Storage.SavedTranscripts(old(db.transcripts), meetingId, createdAt, Values(order, active), true, failAt)
          && db.segments == Storage.SavedSegments(old(db.segments), meetingId, Values(order, active), true, failAt)
        else
          effects == old(effects) && unchanged(db)
    {
      ghost var before := Current();
      var isExit := Take(speaker, text);
      CaptionStepPreservesInv(before, meetingId, CaptionEvent(speaker, text));
      if isExit {
        var finalSegments := Values(order, active);
        Save(finalSegments, true, failAt);
      }
    }

    /** The state update of `onCaption`, up to and including `index++`. */
    method Take(speaker: string, text: string) returns (isExit: bool)
      modifies this`index, this`exitRequested, this`order, this`active
      ensures Current() == CaptionStep(old(Current()), meetingId, CaptionEvent(speaker, text))
      ensures isExit <==> Trim(text) != [] && IsExitPhrase(Trim(text))
    {
      var next;
      next, isExit := TakeCaption(Current(), meetingId, speaker, text);
      index, exitRequested, order, active := next.index, next.exitRequested, next.order, next.active;
      assert index == next.index && exitRequested == next.exitRequested;
      assert order == next.order && active == next.active;
      assert Current() == next;
    }

    /** `setInterval(flush, FLUSH_EVERY_MS)`. */
    method StartFlushTimer()
      modifies this`flushTimerRunning
      ensures flushTimerRunning
    {
      flushTimerRunning := true;
    }

    /** One tick of the flush timer: save the active segments unless there are none. */
    method FlushTick(failAt: Option<nat>)
      modifies this`effects, db
      ensures var batch := Values(order, active);
        if flushTimerRunning && batch != [] then
          && effects == old(effects) + [SaveCalled(batch, false)]
          && db.transcripts == Storage.SavedTranscripts(old(db.transcripts), meetingId, createdAt, batch, false, failAt)
          && db.segments == Storage.SavedSegments(old(db.segments), meetingId, batch, false, failAt)
        else
          effects == old(effects) && unchanged(db)
    {
      if !flushTimerRunning {
        return;
      }
      var segmentsToFlush := Values(order, active);
      if |segmentsToFlush| > 0 {
        Save(segmentsToFlush, false, failAt);
      }
    }

    /** `leaveCall`: the hang-up click and the banner wait are UI steps; then
        the unflushed tail of `segments` is saved without `force`, which
        writes nothing since that tail is always empty. */
    method LeaveCall()
      requires Valid()
      modifies this`flushedCount, this`effects, db
      ensures Valid()
      ensures effects == old(effects) + [SaveCalled([], false)]
      ensures db.transcripts == old(db.transcripts) && db.segments == old(db.segments)
    {
      var unflushed := segments[flushedCount..];
      assert unflushed == [];
      Save(unflushed, false, None);
      flushedCount := |segments|;
    }

    /** The cleanup after the race: stop the flush timer, save the filtered
        active segments with `force`, then notify the backend. */
    method CloseOut(jobId: Option<string>, finalFailAt: Option<nat>)
      modifies this`flushTimerRunning, this`effects, db
      ensures !flushTimerRunning
      ensures var final := FinalSegments(Values(order, active), index);
        && effects == old(effects) + [FlushTimerCleared, SaveCalled(final, true)] + NotifyEffects(jobId, meetingId)
        && db.transcripts == Storage.SavedTranscripts(old(db.transcripts), meetingId, createdAt, final, true, finalFailAt)
        && db.segments == Storage.SavedSegments(old(db.segments), meetingId, final, true, finalFailAt)
    {
      flushTimerRunning := false;
      effects := effects + [FlushTimerCleared];
      var finalSegments := FinalSegments(Values(order, active), index);
      Save(finalSegments, true, finalFailAt);
      if jobId.Some? && jobId.value != [] {
        effects := effects + [BotDonePosted(BotDone(jobId, meetingId))];
      }
    }

    /**
      Everything after `Promise.race` settles with `winner`, through the
      return of `runBot`. `finalFailAt` is the failing write, if any, of the
      last forced save; `jobId` is `process.env.JOB_ID`.
     */
    method Finish(winner: RaceWinner, jobId: Option<string>, finalFailAt: Option<nat>)
      returns (result: Result<string, string>)
      requires Valid()
      requires winner == ExitRequestedWins ==> exitRequested
      modifies this`flushedCount, this`flushTimerRunning, this`effects, db
      ensures Valid()
      ensures winner == HardTimeoutWins ==>
        && result == Failure(RunBotError(HARD_TIMEOUT_ERROR))
        && flushTimerRunning == old(flushTimerRunning)
        && effects == old(effects)
        && unchanged(db)
      ensures winner != HardTimeoutWins ==>
        var final := FinalSegments(Values(order, active), index);
        && result == Success(meetingId)
        && !flushTimerRunning
        && effects == old(effects) + LeaveCallEffects(winner) + [FlushTimerCleared, SaveCalled(final, true)]
                      + NotifyEffects(jobId, meetingId)
        && db.transcripts == Storage.SavedTranscripts(old(db.transcripts), meetingId, createdAt, final, true, finalFailAt)
        && db.segments == Storage.SavedSegments(old(db.segments), meetingId, final, true, finalFailAt)
    {
      if winner == HardTimeoutWins {
        return Failure(RunBotError(HARD_TIMEOUT_ERROR));
      }
      if winner == ExitRequestedWins {
        LeaveCall();
      }
      CloseOut(jobId, finalFailAt);
      result := Success(meetingId);
    }
  }
}
