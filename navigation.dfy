/** The start-up wiring (js/index.js:13-24, 81-109, 151-166): once the
    document is parsed, either both features are set up or, when the trigger
    or the panel is missing from the page, neither is. */
module Navigation {
  import opened NavLinks
  import opened Menu
  import opened ScrollSpy

  /** `buttonFound` and `panelFound` say whether the two queries found their
      element; the remaining arguments describe the markup. Returns `null`
      for both objects when the script stops early. */
  method OnContentLoaded(buttonFound: bool, panelFound: bool, panelActive: bool, buttonActive: bool,
                         pageLinks: seq<NavLink>, pageSections: seq<string>)
    returns (menu: HamburgerMenu?, tracker: SectionTracker?)
    ensures menu == null <==> !(buttonFound && panelFound)
    ensures tracker == null <==> !(buttonFound && panelFound)
    ensures menu != null ==> fresh(menu) && menu.State() == MenuState(panelActive, buttonActive)
    ensures tracker != null ==> fresh(tracker) && tracker.Valid()
    ensures tracker != null ==> tracker.sections == pageSections
    ensures tracker != null ==> tracker.navLinkMap == NavLinkMapOf(TrackedLinks(pageLinks))
    ensures tracker != null ==> tracker.active == ActiveFlags(TrackedLinks(pageLinks))
    ensures tracker != null ==> tracker.current == InitialActive(TrackedLinks(pageLinks))
    ensures tracker != null ==>
      forall i :: i in tracker.observed <==> 1 <= i < |pageSections| && Tracked(tracker.navLinkMap, pageSections[i])
  {
    if !buttonFound || !panelFound {
      return null, null;
    }
    menu := new HamburgerMenu(panelActive, buttonActive);
    tracker := new SectionTracker(pageLinks, pageSections);
  }
}
