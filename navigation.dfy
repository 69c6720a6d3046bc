/**
 * The navigation bar: smooth scrolling to an in-page target below the fixed
 * header, highlighting the link of the section being read, and the
 * "scrolled" look of the bar once the page has moved past a threshold.
 */
module Navigation {
  import opened Options

  /** Height of the fixed header that a scroll target must clear. */
  const HeaderOffset: int := 80
  /** How far below the top of the viewport a section is looked up. */
  const Lookahead: int := 100
  /** Scroll offset past which the bar takes its "scrolled" look. */
  const ScrolledThreshold: int := 50

  // ---------------------------------------------------------------------
  // Smooth scrolling to a target
  // ---------------------------------------------------------------------

  /** An element of the page that has an id, with its `offsetTop` (measured from its offset parent). */
  datatype Element = Element(id: string, offsetTop: int)

  /** `document.querySelector("#id")`: the first element in document order with that id. */
  function QueryById(doc: seq<Element>, selector: string): (r: Option<nat>)
    ensures r.Some? ==> r.value < |doc| && "#" + doc[r.value].id == selector
    ensures r.Some? ==> forall j :: 0 <= j < r.value ==> "#" + doc[j].id != selector
    ensures r.None? ==> forall j :: 0 <= j < |doc| ==> "#" + doc[j].id != selector
  {
    if doc == [] then None
    else if "#" + doc[0].id == selector then Some(0)
    else match QueryById(doc[1..], selector)
      case None => None
      case Some(j) => Some(j + 1)
  }

  /**
   * Where the page is scrolled to for `targetId`, or `None` when no element
   * matches; the source's boolean result is whether a position was given.
   */
  function SmoothScrollTo(doc: seq<Element>, targetId: string): (r: Option<int>)
    ensures r.Some? <==> exists j :: 0 <= j < |doc| && "#" + doc[j].id == targetId
    ensures r.Some? ==> exists j :: 0 <= j < |doc| && "#" + doc[j].id == targetId &&
                                    (forall i :: 0 <= i < j ==> "#" + doc[i].id != targetId) &&
                                    r.value + HeaderOffset == doc[j].offsetTop
  {
    match QueryById(doc, targetId)
    case None => None
    case Some(j) => Some(doc[j].offsetTop - HeaderOffset)
  }

  // ---------------------------------------------------------------------
  // Active navigation link
  // ---------------------------------------------------------------------

  /**
   * A page section with an id: its vertical span and the position, among
   * the navigation links, of the link pointing at it (if there is one).
   */
  datatype Section = Section(top: int, height: int, link: Option<nat>)

  predicate Covers(sec: Section, pos: int) {
    sec.top <= pos < sec.top + sec.height
  }

  /** The last section, in document order, whose span contains `pos`. */
  function LastCovering(sections: seq<Section>, pos: int): (r: Option<nat>)
    ensures r.Some? ==> r.value < |sections| && Covers(sections[r.value], pos)
    ensures r.Some? ==> forall j :: r.value < j < |sections| ==> !Covers(sections[j], pos)
    ensures r.None? ==> forall j :: 0 <= j < |sections| ==> !Covers(sections[j], pos)
  {
    if sections == [] then None
    else if Covers(sections[|sections| - 1], pos) then Some(|sections| - 1)
    else LastCovering(sections[..|sections| - 1], pos)
  }

  /** Link states where only the link at `link` (if any, and if it is a navigation link) is active. */
  function OnlyActive(n: nat, link: Option<nat>): (r: seq<bool>)
    ensures |r| == n
    ensures forall j :: 0 <= j < n ==> (r[j] <==> link == Some(j))
  {
    seq(n, j => link == Some(j))
  }

  /** The link states after an update, as a function of the states before it. */
  function Highlight(before: seq<bool>, sections: seq<Section>, pos: int): seq<bool> {
    match LastCovering(sections, pos)
    case None => before
    case Some(k) => OnlyActive(|before|, sections[k].link)
  }

  /**
   * The throttled scroll handler: every section that contains
   * `scrollY + Lookahead` clears all navigation links and activates its
   * own, so the last such section wins; with none, nothing changes.
   */
  method UpdateActiveNavLink(sections: seq<Section>, scrollY: int, active: array<bool>)
    modifies active
    ensures active[..] == Highlight(old(active[..]), sections, scrollY + Lookahead)
  {
    var scrollPos := scrollY + Lookahead;
    var i := 0;
    while i < |sections|
      invariant 0 <= i <= |sections|
      invariant active[..] == Highlight(old(active[..]), sections[..i], scrollPos)
    {
      var section := sections[i];
      if scrollPos >= section.top && scrollPos < section.top + section.height {
        var m := 0;
        while m < active.Length
          invariant 0 <= m <= active.Length
          invariant forall j :: 0 <= j < m ==> !active[j]
        {
          active[m] := false;
          m := m + 1;
        }
        if section.link.Some? && section.link.value < active.Length {
          active[section.link.value] := true;
        }
      }
      assert sections[..i + 1][..i] == sections[..i];
      i := i + 1;
    }
    assert sections[..i] == sections;
  }

  /** If sections are disjoint, the section found is the only one containing the position. */
  lemma DisjointSectionsOneMatch(sections: seq<Section>, pos: int, k: nat)
    requires forall a, b :: 0 <= a < b < |sections| ==>
               sections[a].top + sections[a].height <= sections[b].top
    requires k < |sections| && Covers(sections[k], pos)
    ensures LastCovering(sections, pos) == Some(k)
  {
  }

  // ---------------------------------------------------------------------
  // Navbar appearance
  // ---------------------------------------------------------------------

  /** The class the bar takes once the page has scrolled past the threshold. */
  const ScrolledClass := "scrolled"

  /**
   * `window.pageYOffset || document.documentElement.scrollTop`: JavaScript's
   * `||` keeps a non-zero page offset and falls back to the document's for 0.
   */
  function ScrollTop(pageYOffset: int, documentScrollTop: int): (top: int)
    ensures top == pageYOffset || top == documentScrollTop
    ensures pageYOffset != 0 ==> top == pageYOffset
    ensures pageYOffset == 0 ==> top == documentScrollTop
  {
    if pageYOffset != 0 then pageYOffset else documentScrollTop
  }

  /** The bar's class list after one scroll event: `classList.add` past the threshold, `remove` otherwise. */
  function ClassesAfterScroll(classes: set<string>, scrollTop: int): set<string> {
    if scrollTop > ScrolledThreshold then classes + {ScrolledClass} else classes - {ScrolledClass}
  }

  /** The bar's class list after a series of scroll events with the given offsets. */
  function ClassesAfter(classes: set<string>, offsets: seq<int>): set<string>
    decreases |offsets|
  {
    if offsets == [] then classes
    else ClassesAfter(ClassesAfterScroll(classes, offsets[0]), offsets[1..])
  }

  /**
   * The class list has no memory of earlier offsets: after any non-empty
   * series of scroll events the bar is "scrolled" iff the last offset
   * exceeds the threshold, and its other classes are those it started with.
   */
  lemma {:induction false} NoHysteresis(classes: set<string>, offsets: seq<int>)
    requires offsets != []
    ensures ScrolledClass in ClassesAfter(classes, offsets) <==> offsets[|offsets| - 1] > ScrolledThreshold
    ensures ClassesAfter(classes, offsets) - {ScrolledClass} == classes - {ScrolledClass}
    decreases |offsets|
  {
    var next := ClassesAfterScroll(classes, offsets[0]);
    assert next - {ScrolledClass} == classes - {ScrolledClass};
    if |offsets| > 1 {
      NoHysteresis(next, offsets[1..]);
    }
  }

  /** The scroll listener's state: the bar's class list and the last offset seen. */
  class NavbarScroll {
    var classes: set<string>
    var lastScrollTop: int

    /** The bar's initial classes come from the page's markup, so they are a parameter. */
    constructor (classes: set<string>)
      ensures this.classes == classes && lastScrollTop == 0
    {
      this.classes := classes;
      lastScrollTop := 0;
    }

    method OnScroll(pageYOffset: int, documentScrollTop: int)
      modifies this
      ensures classes == ClassesAfter(old(classes), [ScrollTop(pageYOffset, documentScrollTop)])
      ensures ScrolledClass in classes <==> ScrollTop(pageYOffset, documentScrollTop) > ScrolledThreshold
      ensures classes - {ScrolledClass} == old(classes) - {ScrolledClass}
      ensures lastScrollTop == ScrollTop(pageYOffset, documentScrollTop)
    {
      var scrollTop := if pageYOffset != 0 then pageYOffset else documentScrollTop;
      if scrollTop > ScrolledThreshold {
        classes := classes + {ScrolledClass};
      } else {
        classes := classes - {ScrolledClass};
      }
      lastScrollTop := scrollTop;
    }
  }
}
