/**
 * The hamburger button and mobile drawer, `initHamburger` and
 * `initMobileDrawerClose`: the `open` classes, the two aria attributes and
 * the body's scroll lock.
 */
module Drawer {

  class NavDrawer {
    /** Whether `#hamburger-btn` exists; without it only the drawer is touched. */
    const hasHamburger: bool
    /** The hamburger's `open` class. */
    var hamburgerOpen: bool
    /** The hamburger's `aria-expanded`. */
    var ariaExpanded: bool
    /** The drawer's `open` class. */
    var drawerOpen: bool
    /** The drawer's `aria-hidden`. */
    var ariaHidden: bool
    /** `document.body.style.overflow === 'hidden'`. */
    var scrollLocked: bool

    /** The attributes agree with the open state: `aria-expanded` equals it,
        `aria-hidden` is its complement, and the body scrolls only when closed. */
    ghost predicate Consistent()
      reads this
    {
      && drawerOpen == hamburgerOpen
      && ariaExpanded == hamburgerOpen
      && ariaHidden == !drawerOpen
      && scrollLocked == drawerOpen
    }

    /** Closed, as the markup starts. */
    constructor (hasHamburger: bool)
      ensures this.hasHamburger == hasHamburger
      ensures Consistent() && !hamburgerOpen
    {
      this.hasHamburger := hasHamburger;
      hamburgerOpen, ariaExpanded := false, false;
      drawerOpen, ariaHidden, scrollLocked := false, true, false;
    }

    /** The hamburger's click listener (bound only when both elements exist):
        `classList.toggle('open')` flips the hamburger and everything else
        follows it, whatever state it was left in. */
    method Toggle()
      requires hasHamburger
      modifies this
      ensures Consistent()
      ensures hamburgerOpen == !old(hamburgerOpen)
    {
      var isOpen := !hamburgerOpen;
      hamburgerOpen := isOpen;
      drawerOpen := isOpen;
      ariaExpanded := isOpen;
      ariaHidden := !isOpen;
      scrollLocked := isOpen;
    }

    /** A click on a `.nav-link` inside the drawer: everything is closed; the
        hamburger's flags are left alone when there is no hamburger. */
    method CloseFromLink()
      modifies this
      ensures !drawerOpen && ariaHidden && !scrollLocked
      ensures hasHamburger ==> !hamburgerOpen && !ariaExpanded && Consistent()
      ensures !hasHamburger ==> hamburgerOpen == old(hamburgerOpen) && ariaExpanded == old(ariaExpanded)
    {
      drawerOpen := false;
      if hasHamburger {
        hamburgerOpen := false;
        ariaExpanded := false;
      }
      ariaHidden := true;
      scrollLocked := false;
    }
  }
}
