/**
 * The navigation bar of the portfolio page: which section is highlighted as
 * active, whether the bar is shown, the last scroll offset it saw, and
 * whether the mobile menu is open.
 *
 * A scroll event hides the bar on narrow viewports while the page moves
 * down past offset 100, records the offset, and hit-tests the sections in
 * the order of `NavItems` against the vertical midpoint of the viewport;
 * every hit overwrites the active section, so the last hit wins.
 */
module Navigation {
  import opened Dom

  /** One entry of the navigation bar: the id of the section it scrolls to
      and the caption it shows (`label` in the component; the icon is
      presentation only). */
  datatype NavItem = NavItem(id: string, caption: string)

  /** The entries in the order they are shown and hit-tested. */
  const NavItems: seq<NavItem> := [
    NavItem("home", "Home"),
    NavItem("about", "About"),
    NavItem("skills", "Skills"),
    NavItem("projects", "Projects"),
    NavItem("contact", "Contact")
  ]

  /** Viewports narrower than this many pixels use the mobile visibility rule. */
  const MobileBreakpoint: int := 768

  /** On mobile, scrolling down hides the bar only past this offset. */
  const HideThreshold: int := 100

  /** `id` names one of the navigation entries. */
  predicate IsSectionId(id: string)
  {
    exists i :: 0 <= i < |NavItems| && NavItems[i].id == id
  }

  /** The bar's visibility after a scroll event from `lastScrollY` to
      `scrollY` on a viewport `innerWidth` pixels wide. */
  function NextVisible(innerWidth: int, lastScrollY: int, scrollY: int): (visible: bool)
    // desktop viewports always show the bar
    ensures innerWidth >= MobileBreakpoint ==> visible
    // scrolling up, or not moving, always shows it
    ensures scrollY <= lastScrollY ==> visible
    // near the top of the page it is always shown
    ensures scrollY <= HideThreshold ==> visible
    // on mobile, moving down past the threshold hides it
    ensures innerWidth < MobileBreakpoint && scrollY > lastScrollY && scrollY > HideThreshold ==> !visible
  {
    if innerWidth < MobileBreakpoint then
      !(scrollY > lastScrollY && scrollY > HideThreshold)
    else
      true
  }

  /** The viewport's vertical midpoint `scrollY + innerHeight / 2` lies in the
      half-open interval `[offsetTop, offsetTop + offsetHeight)` of `e`.
      The midpoint can be a half pixel, so both sides are doubled. */
  predicate Contains(e: Element, scrollY: int, innerHeight: int)
  {
    2 * e.offsetTop <= 2 * scrollY + innerHeight < 2 * (e.offsetTop + e.offsetHeight)
  }

  /** The looked-up section exists and contains the viewport's midpoint. */
  predicate Hit(section: Option<Element>, scrollY: int, innerHeight: int)
  {
    section.Some? && Contains(section.value, scrollY, innerHeight)
  }

  /** `k` is the last position of `sections` that is a hit. */
  predicate IsLastHit(sections: seq<Option<Element>>, scrollY: int, innerHeight: int, k: int)
  {
    && 0 <= k < |sections|
    && Hit(sections[k], scrollY, innerHeight)
    && forall j :: k < j < |sections| ==> !Hit(sections[j], scrollY, innerHeight)
  }

  /** The active section after hit-testing `sections` (the lookups of the first
      `|sections|` entries of `NavItems`, in order) starting from `active`.
      Defined from the end: the last entry decides if it is a hit, and
      otherwise the entries before it do. */
  function ScanSections(sections: seq<Option<Element>>, scrollY: int, innerHeight: int, active: string): (r: string)
    requires |sections| <= |NavItems|
    ensures r == active || IsSectionId(r)
  {
    if sections == [] then active
    else if Hit(sections[|sections| - 1], scrollY, innerHeight) then NavItems[|sections| - 1].id
    else ScanSections(sections[..|sections| - 1], scrollY, innerHeight, active)
  }

  /** The last hit decides the active section, whatever came before it. */
  lemma {:induction false} ScanPicksLastHit(sections: seq<Option<Element>>, scrollY: int, innerHeight: int, active: string, k: int)
    requires |sections| <= |NavItems|
    requires IsLastHit(sections, scrollY, innerHeight, k)
    ensures ScanSections(sections, scrollY, innerHeight, active) == NavItems[k].id
    decreases |sections|
  {
    var n := |sections|;
    if k < n - 1 {
      var front := sections[..n - 1];
      assert !Hit(sections[n - 1], scrollY, innerHeight);
      assert IsLastHit(front, scrollY, innerHeight, k) by {
        forall j | k < j < |front| ensures !Hit(front[j], scrollY, innerHeight) {
          assert front[j] == sections[j];
        }
      }
      ScanPicksLastHit(front, scrollY, innerHeight, active, k);
    }
  }

  /** Without any hit the active section is kept: absent sections are skipped
      and there is no fallback. */
  lemma {:induction false} ScanKeepsActiveWithoutHit(sections: seq<Option<Element>>, scrollY: int, innerHeight: int, active: string)
    requires |sections| <= |NavItems|
    requires forall j :: 0 <= j < |sections| ==> !Hit(sections[j], scrollY, innerHeight)
    ensures ScanSections(sections, scrollY, innerHeight, active) == active
    decreases |sections|
  {
    if sections != [] {
      var front := sections[..|sections| - 1];
      forall j | 0 <= j < |front| ensures !Hit(front[j], scrollY, innerHeight) {
        assert front[j] == sections[j];
      }
      ScanKeepsActiveWithoutHit(front, scrollY, innerHeight, active);
    }
  }

  /** The two cases are exhaustive: either nothing is hit and `active` is
      kept, or the result is the id of the last hit. */
  lemma {:induction false} ScanResultCases(sections: seq<Option<Element>>, scrollY: int, innerHeight: int, active: string)
    requires |sections| <= |NavItems|
    ensures var r := ScanSections(sections, scrollY, innerHeight, active);
      || ((forall j :: 0 <= j < |sections| ==> !Hit(sections[j], scrollY, innerHeight)) && r == active)
      || (exists k :: IsLastHit(sections, scrollY, innerHeight, k) && r == NavItems[k].id)
    decreases |sections|
  {
    var n := |sections|;
    if n > 0 {
      if Hit(sections[n - 1], scrollY, innerHeight) {
        assert IsLastHit(sections, scrollY, innerHeight, n - 1);
      } else {
        var front := sections[..n - 1];
        ScanResultCases(front, scrollY, innerHeight, active);
        if forall j :: 0 <= j < |front| ==> !Hit(front[j], scrollY, innerHeight) {
          forall j | 0 <= j < n ensures !Hit(sections[j], scrollY, innerHeight) {
            if j < n - 1 { assert sections[j] == front[j]; }
          }
        } else {
          var k :| IsLastHit(front, scrollY, innerHeight, k)
            && ScanSections(front, scrollY, innerHeight, active) == NavItems[k].id;
          forall j | k < j < n ensures !Hit(sections[j], scrollY, innerHeight) {
            if j < n - 1 { assert sections[j] == front[j]; }
          }
          assert IsLastHit(sections, scrollY, innerHeight, k);
        }
      }
    }
  }

  /** A section whose lookup found nothing never becomes active: its id can
      only come out of the hit test if it was already the active one. */
  lemma AbsentNeverBecomesActive(sections: seq<Option<Element>>, scrollY: int, innerHeight: int, active: string, j: int)
    requires |sections| <= |NavItems|
    requires 0 <= j < |sections| && sections[j].None?
    requires active != NavItems[j].id
    ensures ScanSections(sections, scrollY, innerHeight, active) != NavItems[j].id
  {
    ScanResultCases(sections, scrollY, innerHeight, active);
  }

  /** The navigation bar's state, updated in place by its event handlers. */
  class Navbar {
    var activeSection: string
    var isVisible: bool
    var lastScrollY: int
    var isMobileMenuOpen: bool

    /** The highlighted section is always one of the navigation entries. */
    ghost predicate Valid()
      reads this
    {
      IsSectionId(activeSection)
    }

    /** The state when the bar mounts. */
    constructor ()
      ensures Valid()
      ensures activeSection == "home" && isVisible && lastScrollY == 0 && !isMobileMenuOpen
    {
      activeSection := "home";
      isVisible := true;
      lastScrollY := 0;
      isMobileMenuOpen := false;
      assert NavItems[0].id == "home";
    }

    /** One scroll event at offset `scrollY` on a viewport `innerWidth` by
        `innerHeight` pixels; `sections[i]` is the lookup of `NavItems[i].id`. */
    method HandleScroll(scrollY: int, innerWidth: int, innerHeight: int, sections: array<Option<Element>>)
      requires Valid()
      requires sections.Length == |NavItems|
      modifies this
      ensures Valid()
      ensures isVisible == NextVisible(innerWidth, old(lastScrollY), scrollY)
      ensures lastScrollY == scrollY
      ensures activeSection == ScanSections(sections[..], scrollY, innerHeight, old(activeSection))
      ensures isMobileMenuOpen == old(isMobileMenuOpen)
    {
      if innerWidth < MobileBreakpoint {
        if scrollY > lastScrollY && scrollY > HideThreshold {
          isVisible := false;
        } else {
          isVisible := true;
        }
      } else {
        isVisible := true;
      }

      lastScrollY := scrollY;

      var i := 0;
      while i < sections.Length
        invariant 0 <= i <= sections.Length
        invariant activeSection == ScanSections(sections[..i], scrollY, innerHeight, old(activeSection))
        invariant isVisible == NextVisible(innerWidth, old(lastScrollY), scrollY)
        invariant lastScrollY == scrollY
        invariant isMobileMenuOpen == old(isMobileMenuOpen)
      {
        assert sections[..i + 1][..i] == sections[..i];
        var section := sections[i];
        if section.Some? {
          var sectionTop := section.value.offsetTop;
          var sectionBottom := sectionTop + section.value.offsetHeight;
          if 2 * sectionTop <= 2 * scrollY + innerHeight < 2 * sectionBottom {
            activeSection := NavItems[i].id;
          }
        }
        i := i + 1;
      }
      assert sections[..sections.Length] == sections[..];
    }

    /** A click on an entry: scroll to the element with id `sectionId` when
        the document has one (reported as `scrollRequested`) and close the
        mobile menu in any case. */
    method ScrollToSection(sectionId: string, document: Document) returns (scrollRequested: bool)
      requires Valid()
      modifies this
      ensures Valid()
      ensures scrollRequested <==> sectionId in document
      ensures !isMobileMenuOpen
      ensures activeSection == old(activeSection) && isVisible == old(isVisible) && lastScrollY == old(lastScrollY)
    {
      scrollRequested := sectionId in document;
      isMobileMenuOpen := false;
    }

    /** The floating menu button flips the mobile menu. */
    method ToggleMobileMenu()
      requires Valid()
      modifies this
      ensures Valid()
      ensures isMobileMenuOpen == !old(isMobileMenuOpen)
      ensures activeSection == old(activeSection) && isVisible == old(isVisible) && lastScrollY == old(lastScrollY)
    {
      isMobileMenuOpen := !isMobileMenuOpen;
    }

    /** A click on the menu overlay closes the mobile menu. */
    method CloseMobileMenu()
      requires Valid()
      modifies this
      ensures Valid()
      ensures !isMobileMenuOpen
      ensures activeSection == old(activeSection) && isVisible == old(isVisible) && lastScrollY == old(lastScrollY)
    {
      isMobileMenuOpen := false;
    }
  }

  /** Two sections `[0, 800)` and `[800, 1400)`, the other three absent, and a
      400-pixel viewport: at offset 500 the midpoint 700 is in "home", at 900
      the midpoint 1100 is in "about". */
  lemma DocumentedScrollScenario()
    ensures var sections := [Some(Element(0, 800)), Some(Element(800, 600)), None, None, None];
      && ScanSections(sections, 500, 400, "contact") == "home"
      && ScanSections(sections, 900, 400, "home") == "about"
  {
    var sections := [Some(Element(0, 800)), Some(Element(800, 600)), None, None, None];
    assert IsLastHit(sections, 500, 400, 0);
    ScanPicksLastHit(sections, 500, 400, "contact", 0);
    assert IsLastHit(sections, 900, 400, 1);
    ScanPicksLastHit(sections, 900, 400, "home", 1);
  }

  /** A session on a phone: scrolling from 50 to 160 hides the bar, scrolling
      back up to 80 shows it again; a menu click closes the menu. */
  method MobileSession(sections: array<Option<Element>>)
    requires sections.Length == |NavItems|
  {
    var nav := new Navbar();
    nav.HandleScroll(50, 400, 800, sections);
    assert nav.isVisible && nav.lastScrollY == 50;
    nav.HandleScroll(160, 400, 800, sections);
    assert !nav.isVisible && nav.lastScrollY == 160;
    nav.HandleScroll(80, 400, 800, sections);
    assert nav.isVisible;
    nav.ToggleMobileMenu();
    assert nav.isMobileMenuOpen;
    var requested := nav.ScrollToSection("about", map[]);
    assert !requested && !nav.isMobileMenuOpen;
  }
}
