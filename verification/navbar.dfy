/**
 The navigation bar's highlight rule: an item is drawn as current when the
 active section equals its label in lower case (the rule also names "Home"
 separately, which adds nothing).
 */
module Navbar {
  import ScrollTracker

  /** The item labels, in the order they are drawn. */
  const NavItems: seq<string> := ["Home", "About", "Projects", "Resume", "Contact"]

  /** Lower-casing of one character, for the ASCII letters the labels use. */
  function LowerChar(c: char): (r: char)
    ensures 'A' <= c <= 'Z' ==> 'a' <= r <= 'z' && r as int - c as int == 32
    ensures !('A' <= c <= 'Z') ==> r == c
  {
    if 'A' <= c <= 'Z' then (c as int + 32) as char else c
  }

  /** `String.prototype.toLowerCase` on the labels. */
  function Lower(s: string): (r: string)
    ensures |r| == |s|
    ensures forall i :: 0 <= i < |s| ==> r[i] == LowerChar(s[i])
  {
    seq(|s|, i requires 0 <= i < |s| => LowerChar(s[i]))
  }

  /**
   The condition that colours and underlines an item, the same in the
   desktop navbar and in the mobile menu.
   */
  predicate Highlighted(item: string, active: string) {
    active == Lower(item) || (item == "Home" && active == "home")
  }

  /** The special case for "Home" is already covered by lower-casing the label. */
  lemma HighlightedIffLowerLabel(item: string, active: string)
    ensures Highlighted(item, active) <==> active == Lower(item)
  {
    if item == "Home" {
      assert Lower(item) == "home";
    }
  }

  /** Each label lower-cased is the section id in the same position. */
  lemma LabelsAreSectionIds()
    ensures |NavItems| == |ScrollTracker.Sections|
    ensures forall k :: 0 <= k < |NavItems| ==> Lower(NavItems[k]) == ScrollTracker.Sections[k]
  {
    assert Lower(NavItems[0]) == "home";
    assert Lower(NavItems[1]) == "about";
    assert Lower(NavItems[2]) == "projects";
    assert Lower(NavItems[3]) == "resume";
    assert Lower(NavItems[4]) == "contact";
  }

  /** Item `k` is highlighted exactly when section `k` is active. */
  lemma HighlightedIffSection(k: nat, active: string)
    requires k < |NavItems|
    ensures Highlighted(NavItems[k], active) <==> active == ScrollTracker.Sections[k]
  {
    LabelsAreSectionIds();
    HighlightedIffLowerLabel(NavItems[k], active);
  }

  /** No two sections share an id (their lengths already differ). */
  lemma SectionsDistinct()
    ensures forall j, k :: 0 <= j < k < |ScrollTracker.Sections| ==>
      ScrollTracker.Sections[j] != ScrollTracker.Sections[k]
  {
    forall j, k | 0 <= j < k < |ScrollTracker.Sections|
      ensures ScrollTracker.Sections[j] != ScrollTracker.Sections[k]
    {
      assert |ScrollTracker.Sections[j]| != |ScrollTracker.Sections[k]|;
    }
  }

  /**
   Exactly one item is highlighted when the active section is one of the
   listed ids, and none otherwise.
   */
  lemma ExactlyOneHighlighted(active: string)
    ensures active in ScrollTracker.Sections ==>
      exists k :: 0 <= k < |NavItems| && Highlighted(NavItems[k], active)
        && forall j :: 0 <= j < |NavItems| && j != k ==> !Highlighted(NavItems[j], active)
    ensures active !in ScrollTracker.Sections ==>
      forall k :: 0 <= k < |NavItems| ==> !Highlighted(NavItems[k], active)
  {
    forall k: nat | k < |NavItems|
      ensures Highlighted(NavItems[k], active) <==> active == ScrollTracker.Sections[k]
    {
      HighlightedIffSection(k, active);
    }
    SectionsDistinct();
    if active in ScrollTracker.Sections {
      var k :| 0 <= k < |ScrollTracker.Sections| && ScrollTracker.Sections[k] == active;
      assert Highlighted(NavItems[k], active);
    }
  }

  /** Starting from "home", after any scroll events exactly one item is highlighted. */
  lemma OneItemAfterScrolling(evs: seq<ScrollTracker.ScrollEvent>)
    ensures var active := ScrollTracker.ActiveAfter(ScrollTracker.InitialActive, evs);
      exists k :: 0 <= k < |NavItems| && Highlighted(NavItems[k], active)
        && forall j :: 0 <= j < |NavItems| && j != k ==> !Highlighted(NavItems[j], active)
  {
    ScrollTracker.ActiveAlwaysListed(ScrollTracker.InitialActive, evs);
    ExactlyOneHighlighted(ScrollTracker.ActiveAfter(ScrollTracker.InitialActive, evs));
  }
}
