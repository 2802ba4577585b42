/**
  The part of a caption DOM node the bots read, in document order: runs of
  plain text and speaker badges (elements carrying one of the badge CSS
  classes), each with its `textContent`.
 */
module Dom {
  import opened Wrappers

  /** The two speaker-badge CSS classes, `.NWpY1d` and `.xoMHSc`. */
  datatype BadgeClass = NWpY1d | XoMHSc

  datatype Fragment = Plain(text: string) | Badge(cls: BadgeClass, text: string)

  type CaptionNode = seq<Fragment>

  predicate Matches(f: Fragment, classes: set<BadgeClass>)
  {
    f.Badge? && f.cls in classes
  }

  /** `node.textContent`: all text of the node, badges included. */
  function TextContent(node: CaptionNode): string
  {
    if node == [] then [] else node[0].text + TextContent(node[1..])
  }

  /** The text of a node is the text of its parts, in order. */
  lemma {:induction false} TextContentAppend(a: CaptionNode, b: CaptionNode)
    ensures TextContent(a + b) == TextContent(a) + TextContent(b)
    decreases |a|
  {
    if a == [] {
      assert a + b == b;
    } else {
      assert (a + b)[0] == a[0] && (a + b)[1..] == a[1..] + b;
      TextContentAppend(a[1..], b);
    }
  }

  /** The position of the first fragment matching `classes` in document
      order, or `|node|` when none does. */
  function FirstMatch(node: CaptionNode, classes: set<BadgeClass>): (i: nat)
    ensures i <= |node|
    ensures forall j :: 0 <= j < i ==> !Matches(node[j], classes)
    ensures i < |node| ==> Matches(node[i], classes)
    decreases |node|
  {
    if node == [] || Matches(node[0], classes) then 0
    else
      assert forall j :: 1 <= j < |node| ==> node[1..][j - 1] == node[j];
      1 + FirstMatch(node[1..], classes)
  }

  /** `node.querySelector(sel)?.textContent`: the first matching badge's text. */
  function FirstBadge(node: CaptionNode, classes: set<BadgeClass>): (r: Option<string>)
    ensures r.None? <==> forall i :: 0 <= i < |node| ==> !Matches(node[i], classes)
    ensures r == if FirstMatch(node, classes) < |node| then Some(node[FirstMatch(node, classes)].text) else None
    decreases |node|
  {
    if node == [] then None
    else if Matches(node[0], classes) then Some(node[0].text)
    else
      assert forall j :: 1 <= j < |node| ==> node[1..][j - 1] == node[j];
      FirstBadge(node[1..], classes)
  }

  /** `querySelectorAll(sel).forEach(el => el.remove())` on a clone: the
      other fragments stay, in order. */
  function RemoveBadges(node: CaptionNode, classes: set<BadgeClass>): (r: CaptionNode)
    ensures forall i :: 0 <= i < |r| ==> !Matches(r[i], classes)
    ensures forall f :: f in r <==> f in node && !Matches(f, classes)
    ensures (forall i :: 0 <= i < |node| ==> !Matches(node[i], classes)) ==> r == node
    decreases |node|
  {
    if node == [] then []
    else if Matches(node[0], classes) then RemoveBadges(node[1..], classes)
    else
      assert forall j :: 1 <= j < |node| ==> node[1..][j - 1] == node[j];
      assert node == [node[0]] + node[1..];
      [node[0]] + RemoveBadges(node[1..], classes)
  }

  /** Removal works fragment by fragment: it distributes over concatenation. */
  lemma {:induction false} RemoveBadgesAppend(a: CaptionNode, b: CaptionNode, classes: set<BadgeClass>)
    ensures RemoveBadges(a + b, classes) == RemoveBadges(a, classes) + RemoveBadges(b, classes)
    decreases |a|
  {
    if a == [] {
      assert a + b == b;
    } else {
      assert (a + b)[0] == a[0] && (a + b)[1..] == a[1..] + b;
      RemoveBadgesAppend(a[1..], b, classes);
    }
  }

  /** `querySelector(sel)?.remove()` on a clone: only the first match goes,
      and the fragments around it stay in order. */
  function RemoveFirstBadge(node: CaptionNode, classes: set<BadgeClass>): (r: CaptionNode)
    ensures FirstBadge(node, classes).None? ==> r == node
    ensures FirstMatch(node, classes) < |node| ==>
      r == node[..FirstMatch(node, classes)] + node[FirstMatch(node, classes) + 1..]
    decreases |node|
  {
    if node == [] then []
    else if Matches(node[0], classes) then node[1..]
    else
      var rest := RemoveFirstBadge(node[1..], classes);
      var k := FirstMatch(node[1..], classes);
      assert FirstMatch(node, classes) == k + 1;
      if k < |node| - 1 then
        SpliceUnderHead(node, k);
        [node[0]] + rest
      else
        assert [node[0]] + node[1..] == node;
        [node[0]] + rest
  }

  /** Splicing out a fragment after the head, then putting the head back. */
  lemma SpliceUnderHead(node: CaptionNode, k: nat)
    requires k < |node| - 1
    ensures [node[0]] + (node[1..][..k] + node[1..][k + 1..]) == node[..k + 1] + node[k + 2..]
  {
    assert node[1..][..k] == node[1..k + 1] && node[1..][k + 1..] == node[k + 2..];
    assert [node[0]] + node[1..k + 1] == node[..k + 1];
  }

  /** Two selectors that match the same fragments of a node read it alike. */
  lemma {:induction false} SameMatchesSameReads(node: CaptionNode, a: set<BadgeClass>, b: set<BadgeClass>)
    requires forall i :: 0 <= i < |node| ==> (Matches(node[i], a) <==> Matches(node[i], b))
    ensures FirstBadge(node, a) == FirstBadge(node, b)
    ensures RemoveBadges(node, a) == RemoveBadges(node, b)
    ensures RemoveFirstBadge(node, a) == RemoveFirstBadge(node, b)
    decreases |node|
  {
    if node != [] {
      assert forall j :: 1 <= j < |node| ==> node[1..][j - 1] == node[j];
      SameMatchesSameReads(node[1..], a, b);
    }
  }

  /** With at most one match, removing every match is removing the first. */
  lemma {:induction false} SingleMatchRemoval(node: CaptionNode, classes: set<BadgeClass>)
    requires forall i, j :: 0 <= i < j < |node| && Matches(node[i], classes) ==> !Matches(node[j], classes)
    ensures RemoveBadges(node, classes) == RemoveFirstBadge(node, classes)
    decreases |node|
  {
    if node != [] {
      assert forall j :: 1 <= j < |node| ==> node[1..][j - 1] == node[j];
      if !Matches(node[0], classes) {
        SingleMatchRemoval(node[1..], classes);
      }
    }
  }
}
