/**
  The page-side half of the TypeScript bot (`src/playwright/runBot.ts`): a
  mutation observer that reads a caption node's speaker badge and text and
  hands `(speaker, text)` to the exposed `onCaption`.
 */
module Bridge {
  import opened Wrappers
  import opened Text
  import opened Models
  import opened Dom

  /** The selector `.NWpY1d, .xoMHSc`. */
  const BADGE_CLASSES: set<BadgeClass> := {NWpY1d, XoMHSc}

  /** The speaker assumed before any badge has been read. */
  const UNKNOWN_SPEAKER: string := "Unknown Speaker"

  /** `getSpeaker`: the first badge's trimmed text, or `lastSpeaker` when
      there is no badge or its text is blank. */
  function GetSpeaker(node: CaptionNode, lastSpeaker: string): (spk: string)
    ensures FirstBadge(node, BADGE_CLASSES).None? ==> spk == lastSpeaker
    ensures FirstBadge(node, BADGE_CLASSES).Some? && Trim(FirstBadge(node, BADGE_CLASSES).value) != [] ==>
      spk == Trim(FirstBadge(node, BADGE_CLASSES).value)
    ensures FirstBadge(node, BADGE_CLASSES).Some? && Trim(FirstBadge(node, BADGE_CLASSES).value) == [] ==>
      spk == lastSpeaker
    ensures lastSpeaker != [] ==> spk != []
  {
    match FirstBadge(node, BADGE_CLASSES)
    case None => lastSpeaker
    case Some(badge) => if Trim(badge) != [] then Trim(badge) else lastSpeaker
  }

  /** `getText`: the trimmed text of the node with every badge removed. */
  function GetText(node: CaptionNode): (txt: string)
    ensures Trim(txt) == txt
    ensures exists i :: OccursAt(TextContent(RemoveBadges(node, BADGE_CLASSES)), txt, i)
    ensures txt == [] <==> AllSpaces(TextContent(RemoveBadges(node, BADGE_CLASSES)))
  {
    TrimIdempotent(TextContent(RemoveBadges(node, BADGE_CLASSES)));
    TrimShape(TextContent(RemoveBadges(node, BADGE_CLASSES)));
    Trim(TextContent(RemoveBadges(node, BADGE_CLASSES)))
  }

  /** What one `send(node)` does: the call it makes, and the new `lastSpeaker`. */
  datatype SendResult = SendResult(delivered: Option<CaptionEvent>, lastSpeaker: string)

  function SendDecision(node: CaptionNode, lastSpeaker: string): (r: SendResult)
    ensures r.delivered.Some? <==>
      GetText(node) != [] && Lower(GetText(node)) != Lower(GetSpeaker(node, lastSpeaker))
    ensures r.delivered.Some? ==>
      r.delivered.value == CaptionEvent(GetSpeaker(node, lastSpeaker), GetText(node))
      && r.lastSpeaker == r.delivered.value.speaker
    ensures r.delivered.None? ==> r.lastSpeaker == lastSpeaker
  {
    var txt := GetText(node);
    var spk := GetSpeaker(node, lastSpeaker);
    if txt != [] && Lower(txt) != Lower(spk) then SendResult(Some(CaptionEvent(spk, txt)), spk)
    else SendResult(None, lastSpeaker)
  }

  /** The observer's one piece of state, `lastSpeaker`. */
  class CaptionObserver {
    var lastSpeaker: string

    constructor ()
      ensures lastSpeaker == UNKNOWN_SPEAKER
    {
      lastSpeaker := UNKNOWN_SPEAKER;
    }

    /** `send(node)`; the returned event is the `onCaption` call it makes, if any. */
    method Send(node: CaptionNode) returns (delivered: Option<CaptionEvent>)
      modifies this
      ensures SendResult(delivered, lastSpeaker) == SendDecision(node, old(lastSpeaker))
    {
      var txt := GetText(node);
      var spk := GetSpeaker(node, lastSpeaker);
      delivered := None;
      if txt != [] && Lower(txt) != Lower(spk) {
        delivered := Some(CaptionEvent(spk, txt));
        lastSpeaker := spk;
      }
    }
  }

  /** The `onCaption` calls made while the observer sees `nodes` in turn. */
  function Observe(nodes: seq<CaptionNode>, lastSpeaker: string): seq<CaptionEvent>
    decreases |nodes|
  {
    if nodes == [] then []
    else
      var r := SendDecision(nodes[0], lastSpeaker);
      (if r.delivered.Some? then [r.delivered.value] else []) + Observe(nodes[1..], r.lastSpeaker)
  }

  /** Every delivered caption is non-empty, already trimmed (so `onCaption`
      never drops it), differs from its speaker ignoring case, and names a
      non-empty speaker. */
  predicate WellFormedDelivery(e: CaptionEvent)
  {
    e.text != [] && Trim(e.text) == e.text && Lower(e.text) != Lower(e.speaker) && e.speaker != []
  }

  lemma {:induction false} ObserveDeliversWellFormed(nodes: seq<CaptionNode>, lastSpeaker: string)
    requires lastSpeaker != []
    ensures forall i :: 0 <= i < |Observe(nodes, lastSpeaker)| ==> WellFormedDelivery(Observe(nodes, lastSpeaker)[i])
    decreases |nodes|
  {
    if nodes != [] {
      var r := SendDecision(nodes[0], lastSpeaker);
      ObserveDeliversWellFormed(nodes[1..], r.lastSpeaker);
    }
  }
}
