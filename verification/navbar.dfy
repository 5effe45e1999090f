/**
 * The fixed navigation bar: it turns opaque once the page is scrolled, has a
 * mobile menu that a button opens and closes, and buttons that scroll to a
 * page section. The document is modelled by the set of element ids it holds.
 */
module Navbar {
  import Page

  /** A navigation entry: its label and the id of the section it scrolls to. */
  datatype NavItem = NavItem(name: string, id: string)

  /** Scrolling further than this many pixels makes the bar opaque. */
  const ScrollThreshold: int := 50

  /** The entries shown both in the desktop bar and in the mobile menu. */
  const NavItems: seq<NavItem> := [
    NavItem("Home", "hero"),
    NavItem("Services", "services"),
    NavItem("Technology", "technology"),
    NavItem("Contact", "contact")
  ]

  /** The section the "Get Started" buttons scroll to. */
  const GetStartedTarget: string := "contact"

  /**
   * Every navigation target is a section of the page, no two entries share a
   * section, and "Get Started" leads to one as well.
   */
  lemma NavTargetsExist()
    ensures forall i :: 0 <= i < |NavItems| ==> NavItems[i].id in Page.SectionIds
    ensures forall i, j :: 0 <= i < j < |NavItems| ==> NavItems[i].id != NavItems[j].id
    ensures GetStartedTarget in Page.SectionIds
  {
  }

  class Bar {
    var isOpen: bool
    var scrolled: bool
    /** The ids of the elements present in the document. */
    const elementIds: set<string>

    /** Mount: menu closed, not scrolled. */
    constructor (elementIds: set<string>)
      ensures !isOpen && !scrolled && this.elementIds == elementIds
    {
      isOpen, scrolled := false, false;
      this.elementIds := elementIds;
    }

    /** The window's scroll listener, called with the current `scrollY`. */
    method HandleScroll(scrollY: int)
      modifies this
      ensures scrolled <==> scrollY > ScrollThreshold
      ensures isOpen == old(isOpen)
    {
      scrolled := scrollY > ScrollThreshold;
    }

    /** The mobile menu button. */
    method ToggleMenu()
      modifies this
      ensures isOpen == !old(isOpen)
      ensures scrolled == old(scrolled)
    {
      isOpen := !isOpen;
    }

    /**
     * Scroll to the element with id `sectionId`, if there is one, and close
     * the menu; `found` says whether the page scrolled. Without such an
     * element nothing changes.
     */
    method ScrollToSection(sectionId: string) returns (found: bool)
      modifies this
      ensures found <==> sectionId in elementIds
      ensures isOpen == (old(isOpen) && !found)
      ensures scrolled == old(scrolled)
    {
      found := sectionId in elementIds;
      if found {
        isOpen := false;
      }
    }
  }

  /** Pressing the menu button twice leaves the bar as it was. */
  method PressMenuTwice(bar: Bar)
    modifies bar
    ensures bar.isOpen == old(bar.isOpen) && bar.scrolled == old(bar.scrolled)
  {
    bar.ToggleMenu();
    bar.ToggleMenu();
  }

  /** On any document holding the page's sections, every navigation button scrolls and closes the menu. */
  method ClickNavItem(bar: Bar, i: nat) returns (found: bool)
    requires Page.SectionIds <= bar.elementIds && i < |NavItems|
    modifies bar
    ensures found && !bar.isOpen && bar.scrolled == old(bar.scrolled)
  {
    NavTargetsExist();
    found := bar.ScrollToSection(NavItems[i].id);
  }

  /** On any document holding the page's sections, the "Get Started" button scrolls to the contact section and closes the menu. */
  method ClickGetStarted(bar: Bar) returns (found: bool)
    requires Page.SectionIds <= bar.elementIds
    modifies bar
    ensures found && !bar.isOpen && bar.scrolled == old(bar.scrolled)
  {
    NavTargetsExist();
    found := bar.ScrollToSection(GetStartedTarget);
  }
}
