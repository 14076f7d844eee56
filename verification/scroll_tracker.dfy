/**
 The page's scroll handler: on each scroll event it picks, as the active
 section, the first listed section whose element exists and spans the
 scroll position plus a fixed look-ahead; when none does, the active
 section stays what it was.
 */
module ScrollTracker {
  import opened Wrappers

  /** An element's `offsetTop` and `offsetHeight`, in whole pixels. */
  datatype Box = Box(top: int, height: int)

  /**
   The part of the document `document.getElementById` sees: the ids that
   are present, each with its element's box. A missing id is a `null` lookup.
   */
  type Dom = map<string, Box>

  /** The section ids, in the order the handler tries them. */
  const Sections: seq<string> := ["home", "about", "projects", "resume", "contact"]

  /** Added to `window.scrollY` before the comparison. */
  const Lookahead := 100

  /** The position compared with the sections' boxes: `window.scrollY + 100`. */
  function ScrollPosition(scrollY: int): int {
    scrollY + Lookahead
  }

  /** The active section before any scroll event. */
  const InitialActive := "home"

  /** The element with id `id` exists and `pos` lies in `[top, top + height)`. */
  predicate Hit(dom: Dom, id: string, pos: int) {
    id in dom && dom[id].top <= pos < dom[id].top + dom[id].height
  }

  /** `ids[k]` is the first of `ids` that is hit at `pos`. */
  ghost predicate FirstHitAt(ids: seq<string>, dom: Dom, pos: int, k: int) {
    && 0 <= k < |ids|
    && Hit(dom, ids[k], pos)
    && forall j :: 0 <= j < k ==> !Hit(dom, ids[j], pos)
  }

  /** The `for … break` loop: the index of the first id hit at `pos`, if any. */
  function FirstHit(ids: seq<string>, dom: Dom, pos: int): (r: Option<nat>)
    ensures r.Some? ==> FirstHitAt(ids, dom, pos, r.value)
    ensures r.None? <==> forall k :: 0 <= k < |ids| ==> !Hit(dom, ids[k], pos)
  {
    if |ids| == 0 then None
    else if Hit(dom, ids[0], pos) then Some(0)
    else
      match FirstHit(ids[1..], dom, pos)
      case None => None
      case Some(k) => Some(k + 1)
  }

  /**
   `handleScroll`: the new active section for scroll offset `scrollY`.
   It is the first listed section whose element exists and spans
   `scrollY + 100`; if there is none, it is `prev`.
   */
  function SelectActive(dom: Dom, scrollY: int, prev: string): (r: string)
    ensures (exists k :: FirstHitAt(Sections, dom, ScrollPosition(scrollY), k)) ==>
      exists k :: FirstHitAt(Sections, dom, ScrollPosition(scrollY), k) && r == Sections[k]
    ensures (forall k :: 0 <= k < |Sections| ==> !Hit(dom, Sections[k], ScrollPosition(scrollY))) ==>
      r == prev
  {
    match FirstHit(Sections, dom, ScrollPosition(scrollY))
    case Some(k) => Sections[k]
    case None => prev
  }

  /**
   One scroll event: the document as laid out at that moment (a resize may
   move the sections between events) and the scroll offset.
   */
  datatype ScrollEvent = ScrollEvent(dom: Dom, scrollY: int)

  /** The active section after the events `evs`, starting from `active`. */
  function ActiveAfter(active: string, evs: seq<ScrollEvent>): string
    decreases |evs|
  {
    if |evs| == 0 then active
    else ActiveAfter(SelectActive(evs[0].dom, evs[0].scrollY, active), evs[1..])
  }

  /** A scroll event never makes up a section name: it keeps `prev` or picks a listed one. */
  lemma SelectActiveInSections(dom: Dom, scrollY: int, prev: string)
    ensures var r := SelectActive(dom, scrollY, prev);
      r == prev || r in Sections
  {
  }

  /** From any listed section, in particular from "home", the active section stays listed. */
  lemma {:induction false} ActiveAlwaysListed(active: string, evs: seq<ScrollEvent>)
    requires active in Sections
    ensures ActiveAfter(active, evs) in Sections
    decreases |evs|
  {
    if |evs| > 0 {
      SelectActiveInSections(evs[0].dom, evs[0].scrollY, active);
      ActiveAlwaysListed(SelectActive(evs[0].dom, evs[0].scrollY, active), evs[1..]);
    }
  }

  /**
   When the sections do not overlap at the look-ahead position, so that
   at most one of them spans it, the handler picks the one that does.
   */
  lemma PicksTheContainingSection(dom: Dom, scrollY: int, prev: string, k: nat)
    requires k < |Sections| && Hit(dom, Sections[k], ScrollPosition(scrollY))
    requires forall j :: 0 <= j < |Sections| && j != k ==> !Hit(dom, Sections[j], ScrollPosition(scrollY))
    ensures SelectActive(dom, scrollY, prev) == Sections[k]
  {
    assert FirstHitAt(Sections, dom, ScrollPosition(scrollY), k);
  }

  /**
   The Home section of the page carries no id, so "home" is never in the
   document. Then a scroll event can never make "home" active again once
   another section has been. What stays active at the top of the page is
   stated by AboveEverySectionKeepsPrevious.
   */
  lemma HomeNeverReselected(dom: Dom, scrollY: int, prev: string)
    requires "home" !in dom && prev != "home"
    ensures SelectActive(dom, scrollY, prev) != "home"
  {
    var r := SelectActive(dom, scrollY, prev);
    if r != prev {
      var k :| FirstHitAt(Sections, dom, ScrollPosition(scrollY), k) && r == Sections[k];
      assert k != 0;
    }
  }

  /** Over any run of scroll events, the same holds without a "home" element. */
  lemma {:induction false} HomeNeverReturns(active: string, evs: seq<ScrollEvent>)
    requires active != "home"
    requires forall i :: 0 <= i < |evs| ==> "home" !in evs[i].dom
    ensures ActiveAfter(active, evs) != "home"
    decreases |evs|
  {
    if |evs| > 0 {
      HomeNeverReselected(evs[0].dom, evs[0].scrollY, active);
      HomeNeverReturns(SelectActive(evs[0].dom, evs[0].scrollY, active), evs[1..]);
    }
  }

  /**
   While the look-ahead position is above the top of every element with
   an id, nothing matches and the previous section stays active. On the
   rendered page the Home section, which has no id, fills the top of the
   page, so this is what happens when the user scrolls back to the top.
   */
  lemma AboveEverySectionKeepsPrevious(dom: Dom, scrollY: int, prev: string)
    requires forall id :: id in dom ==> dom[id].top > ScrollPosition(scrollY)
    ensures SelectActive(dom, scrollY, prev) == prev
  {
    forall k | 0 <= k < |Sections| ensures !Hit(dom, Sections[k], ScrollPosition(scrollY)) {
      if Sections[k] in dom {
        assert dom[Sections[k]].top > ScrollPosition(scrollY);
      }
    }
  }
}
